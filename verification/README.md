# MailStack core: a verified model

MailStack is a mail server suite written in Rust. This project models, in Dafny, the algorithms and state
machines of its `core`, `imappop3` and `auth` crates that have the most to get wrong, and proves what each
of them promises over all inputs, all runs or all interleavings. `dafny verify dfyconfig.toml` checks
everything.

| files | what they model |
|---|---|
| `CivilCalendar`, `DateTime` | day numbers and civil dates in closed form; IMAP date-times (section 9 of RFC 3501) |
| `ImapText`, `Structure`, `Headers`, `Multipart` | strings, literals and the BODYSTRUCTURE printer (sections 4.3 and 7.4.2 of RFC 3501); reading header blocks; splitting multipart bodies (section 5.1.1 of RFC 2046) |
| `Json`, `JsonReader`, `AuditLog`, `AuditWorld` | canonical JSON and a reader for it (RFC 8259); the hash-chained audit log with its head anchor |
| `MemberName`, `Restore` | archive member names, and the two-phase restore with rollback |
| `Ledger`, `TwoFactor`, `TwoFactorRaces`, `AdminFiles` | replay ledger, enrolment states and recovery codes of the second factor (section 5.2 of RFC 6238) |
| `MailboxCache`, `TxtCache` | the stamped cache of the mailbox password file; the bounded DNS TXT cache |
| `Intervals`, `Limiter`, `Throttle` | the per-address rate limiter and the per-account failure throttle |
| `LineIo`, `ManageSieve` | framing of lines and literals that arrive in chunks; quoting and tokenizing arguments (section 4 of RFC 5804) |
| `BaseEncoding`, `ZoneText` | base32 and base64 (sections 6 and 4 of RFC 4648); cutting TXT values into character-strings |
| `Common`, `Text`, `Utf8` | shared types, string operations and UTF-8 encoding |

Code that updates state in the original is a class or a loop here, proved equal to a function (or, where the
original leaves a choice open, allowed by a relation) whose laws are then proved as lemmas. Foreign code is a
parameter: SHA-256, HMAC, the AEAD, the JSON reader, Unicode upper-casing, the clock, fresh random values,
and any input/output step that may fail. Assumptions about a parameter are named predicates in the theorem
that needs them (`TwoFactor.OpensSealed`, `AuditLog.ReadsRecords`, `AuditLog.RefusesFragments`,
`AuditLog.RefusesJoined`, `AuditLog.HashesAreWords`, `Headers.DecodesText`, `TwoFactor.UpperFixesCodes`); `AuditWorld.AssumptionsCanHold`
shows that those of the audit log can hold together. A locked body is one atomic step, and a rename replaces a
whole file.

## Where the code and the expectation part

* `format_date_time` prints what `parse_date_time` accepts exactly for years 1 to 9999; every other
  timestamp is refused on the way back (`DateTime.DateTimeRoundTrip`).
* Splitting a multipart body gives back its parts exactly when there are at most `MAX_PARTS` of them; past
  the limit the last slice swallows the rest of the body (`Multipart.SplitUndoesJoin`).
* A printed BODYSTRUCTURE is readable exactly when no string in it holds U+0000: such a string is printed as
  a literal, which section 4.3.1 of RFC 3501 forbids (`Structure.BodyStructureReads`). A received message with
  the one field `Content-Description` is such a case exactly when its text holds U+0000
  (`Headers.DescriptionReads`, `Headers.NulMessageExists`).
* A header block of 2,000 fields or more ends with the first line of the 2,000th field: its continuation lines
  are lost (`Headers.WrittenLinesRead`).
* A failed restore puts every file's contents back, but masks modes to `0o777`. Whatever fails and where, the
  files are exactly as before if and only if no member the landing reaches has an existing target with higher
  mode bits (`Restore.FailuresAreUndoneExactlyWhen`, `Restore.FailedRestoreChangesMode`).
* A line of exactly `max` bytes ended by CR LF is accepted or refused depending on whether CR and LF arrive
  in one read; this is the only length the chunking decides (`LineIo.ChunkingDecides`,
  `LineIo.Reader.ReadLine`).
* Keeping eight time steps prevents replays exactly for clocks that fall at most five steps below their
  maximum (`Ledger.SafeFallIsExact`).
* The stamped cache answers, in every interleaving with a given history of the file, what the file held during
  the call if and only if repeated stamps do no harm: whatever is readable from a version up to a later
  equally stamped one is what that later one holds (`MailboxCache.CacheIsRightExactlyWhen`).
* A log of whole lines starts its chain from genesis exactly when it is empty or its tail window shows an
  object but no hash, whatever its size (`AuditLog.StartsAtGenesisExactly`). A head write that fails shows
  until the next call (`AuditLog.RunVerifies`).
* An append that fails after some bytes of its line is never noticed by later calls and never heals: the next
  call succeeds exactly when those bytes and the record before them fit the tail window, and from then on the
  log fails under every head (`AuditLog.FailedAppendBreaksLog`, `AuditWorld.FailedAppendHappens`). When it was
  the first append to the log, no call succeeds again (`AuditLog.FailedFirstAppendBlocks`).
* The throttle lets up to `2 * max_failures - 2` failed checks through in an interval of the window's length
  that excludes its end, and no more (`max_failures` when the window is one second or the limit is 1 or 2); an
  interval that includes its end can hold `2 * max_failures` when lockout and window are equal
  (`Throttle.FailureBound`, `Throttle.FailureBoundIsReached`, `Throttle.ClosedIntervalHoldsMore`).
* Before 1970 a first failure already denies its account, since an account without a lock is stored as locked
  until second 0 (`Throttle.NegativeClockDenies`).
* A `disable` removes an enrolment it did not check only when that enrolment was completed after the state was
  read or the code checked, and that race is real (`TwoFactorRaces.RemovalIsCheckedUnlessRaced`,
  `TwoFactorRaces.EnrolmentRemovedUnchecked`).
* The closed form of a date overflows 64 bits exactly for the last 719,468 day numbers, which no timestamp
  reaches (`CivilCalendar.CivilFitsExactly`, `CivilCalendar.TimestampFits`).

## Model

| member | source | states |
|---|---|---|
| CivilCalendar.DayRoundTrip | crates/imappop3/src/date.rs:7-28 | for every integer day number, `civil_from_days` gives a real date and `days_from_civil` maps it back |
| CivilCalendar.DateRoundTrip | crates/imappop3/src/date.rs:7-28 | for every real date of any year, `days_from_civil` is undone by `civil_from_days` |
| CivilCalendar.SuccessorAddsOne | crates/imappop3/src/date.rs:7-15 | the next date of the leap-year calendar is real and has the next day number |
| CivilCalendar.ClosedFormsCountDays | crates/imappop3/src/date.rs:7-52 | both closed forms agree with walking the calendar day by day from 1 Jan 1970, in both directions |
| DateTime.ParseWrittenDate | crates/imappop3/src/date.rs:54-81 | a written date with any day number, of one or two digits or more, and a month in any letter case is accepted exactly when it is a real date of the years 1 to 9999, and read as its day number |
| DateTime.MonthNumberReads | crates/imappop3/src/date.rs:30-38 | a text is a month exactly when it has its three letters in any case, and is then that month's number |
| DateTime.FourPartsAreRefused | crates/imappop3/src/date.rs:54-74 | a date with a fourth part is refused |
| CivilCalendar.CivilFitsExactly | crates/imappop3/src/date.rs:17-28 | on 64-bit day numbers every intermediate value stays within 64 bits if and only if the first addition does |
| CivilCalendar.TimestampFits | crates/imappop3/src/date.rs:144-147 | no 64-bit timestamp overflows when printed |
| CivilCalendar.AcceptedDateFits | crates/imappop3/src/date.rs:76-120 | no accepted date, time and zone overflows |
| DateTime.ParseZoneExactly | crates/imappop3/src/date.rs:123-142 | exactly the signed zones up to 23:59 are read, as seconds east of UTC |
| DateTime.ParseFormatted | crates/imappop3/src/date.rs:83-121 | every date-time of the grammar parses to its instant: any zone, a leap second, a two-digit day or a blank and one digit, a month in any letter case, quoted or not; one with any field out of its range is refused |
| DateTime.ParseWithoutZone | crates/imappop3/src/date.rs:83-121 | the zone may be missing, and is then UTC |
| DateTime.FourFieldsAreRefused | crates/imappop3/src/date.rs:83-121 | a fourth field is refused |
| DateTime.DateTimeRoundTrip | crates/imappop3/src/date.rs:83-158 | printing then parsing gives the timestamp back exactly for years 1 to 9999, character by character |
| DateTime.PrintedFields | crates/imappop3/src/date.rs:144-158 | for every timestamp, character by character: day, month letters, year, clock and zone of the printed text |
| ImapText.PushQuoted | crates/imappop3/src/render.rs:1-14 | the quoting loop writes the quoted form, CR and LF as blanks |
| ImapText.BreaksAreBlanks | crates/imappop3/src/render.rs:1-14 | quoting a text is quoting it with blanks for its line breaks, none of which are left |
| ImapText.StringReads | crates/imappop3/src/render.rs:16-25 | a strict reader, whatever follows, reads every string leaf back to its exact bytes if it holds no NUL, and refuses it otherwise |
| ImapText.NulBytes | crates/imappop3/src/render.rs:16-25 | a leaf holds NUL exactly when its text holds U+0000 |
| ImapText.NstringReads | crates/imappop3/src/render.rs:27-32 | a nullable string reads back as NIL or its exact bytes, or is refused for NUL |
| ImapText.ListReads | crates/imappop3/src/mime.rs:274-291 | a parenthesised list of readable pieces reads as the list of their values and stops at its parenthesis, unless one of them holds NUL |
| Structure.AddressListReads | crates/imappop3/src/mime.rs:244-272 | an address list reads as NIL or a list of four-field addresses with their exact values |
| Structure.EnvelopeReads | crates/imappop3/src/mime.rs:274-291 | an envelope reads as its ten fields, sender and reply-to falling back to from |
| Structure.PartReads | crates/imappop3/src/mime.rs:466-559 | at every depth the printed entity reads as the structure of the message and nothing more, unless a string in it holds NUL |
| Structure.PartClean | crates/imappop3/src/mime.rs:466-559 | the structure is free of NUL exactly when no header string the printer takes, at any depth, holds U+0000 |
| Structure.StructureIsBody | crates/imappop3/src/mime.rs:466-559 | the structure has the shape the grammar gives its type: parts and subtype, or basic fields with the extra ones of exactly text and message/rfc822 |
| Structure.BodyStructureReads | crates/imappop3/src/mime.rs:462-464 | for every message the answer is one list that a strict reader consumes to the end if and only if no printed string holds U+0000, and is refused otherwise |
| Structure.NulIsRefused | crates/imappop3/src/mime.rs:527-541 | a single-part message with U+0000 in its description is answered, and the answer refused |
| Structure.QuotedExactly | crates/imappop3/src/render.rs:16-25 | exactly the strings of printable ASCII and tabs are quoted, all others are literals |
| Structure.GetIsFirst | crates/imappop3/src/mime.rs:25-30 | a header is looked up by its first occurrence, letter case aside |
| Structure.AddressFields | crates/imappop3/src/mime.rs:244-272 | name and host of an address are NIL when empty, its route always |
| Structure.EnvelopeFallsBack | crates/imappop3/src/mime.rs:274-291 | which header each of the ten fields shows; sender and reply-to, and no others, fall back to from |
| Structure.SinglePartFields | crates/imappop3/src/mime.rs:501-559 | which value each field of an entity without parts shows, with size, line count, envelope and inner structure |
| Structure.ParamsAlternate | crates/imappop3/src/mime.rs:514-529 | parameters alternate between names in capitals and values, in order |
| Structure.PartsAreStructured | crates/imappop3/src/mime.rs:478-491 | parts composed under the boundary come out as the structures of exactly these parts, in order, and the subtype |
| Structure.FallbackIsOctetStream | crates/imappop3/src/mime.rs:471-500 | at depth 16, or without parts, an entity is an application/octet-stream |
| Structure.LinesAreCounted | crates/imappop3/src/mime.rs:450-460 | a body has as many lines as line ends, and one more when it ends within one |
| Structure.EncodingReads | crates/imappop3/src/mime.rs:501-512 | the encoding is what stands before the first semicolon, trimmed and in capitals, 7BIT when nothing does |
| Structure.PrintPart | crates/imappop3/src/mime.rs:466-559 | the recursive printer, pushing onto one string, writes the text `PartReads` reads back, and ends at depth 16 |
| Structure.PrintAddressList | crates/imappop3/src/mime.rs:244-272 | the address loop writes the list `AddressListReads` reads back |
| Structure.PrintParams | crates/imappop3/src/mime.rs:514-529 | the parameter loop writes alternating names and values, NIL when there are none |
| Structure.BodyStructure | crates/imappop3/src/mime.rs:462-464 | the printed answer reads back as a body of the grammar exactly when no printed string holds U+0000 |
| Headers.ReadHeaders | crates/imappop3/src/mime.rs:86-138 | the loop over the lines of the header block reads the headers `WrittenLinesRead` is about |
| Headers.WrittenLinesRead | crates/imappop3/src/mime.rs:68-138 | any header block of up to 1 MiB, written with any body: each field is read once, its name in lower case and the texts of its lines joined by blanks; continuations before the first field, blank ones, and lines without a colon or with no proper name change nothing; at the limit of 2,000 the last field keeps its first line only; the body is found |
| Headers.SplitsAtBlankLine | crates/imappop3/src/mime.rs:68-84 | a message is cut at its first CR LF CR LF or, without one, at its first LF LF; without either it is all headers |
| Headers.DescriptionReads | crates/imappop3/src/mime.rs:466-541 | a message whose one field is a description is answered with a refused structure if and only if the description holds U+0000 |
| Headers.NulMessageExists | crates/imappop3/src/mime.rs:86-541 | the message bytes of such a case |
| Multipart.TrimLine | crates/imappop3/src/mime.rs:432-438 | the longest prefix of a line that does not end in a blank |
| Multipart.MultipartParts | crates/imappop3/src/mime.rs:397-430 | the splitting loop, with its offsets, open part and early exits, finds the slices the two laws below are about |
| Multipart.PartsAreOrdered | crates/imappop3/src/mime.rs:397-430 | for any body and boundary: ordered, non-overlapping slices, at most one more than `MAX_PARTS` |
| Multipart.CutsOneBreak | crates/imappop3/src/mime.rs:440-448 | a slice loses one line break at its end, CR LF or LF, and nothing else |
| Multipart.SplitUndoesJoin | crates/imappop3/src/mime.rs:397-448 | parts joined with delimiter lines come back exactly if and only if there are at most `MAX_PARTS` |
| Json.PushJsonString | crates/core/src/audit.rs:93-111 | the escaping loop writes the escaped string |
| Json.AscendingIsSorted | crates/core/src/audit.rs:81-83 | any strictly ascending listing of an object's keys is the sorted one |
| Json.CanonReads | crates/core/src/audit.rs:71-111 | canonical texts are self-delimiting: equal texts with any following text come from equal values |
| Json.CanonInjective | crates/core/src/audit.rs:71-111 | distinct values have distinct canonical texts |
| JsonReader.EscapedReads | crates/core/src/audit.rs:93-111 | a JSON reader gets every string back from its escaped form |
| JsonReader.CanonIsRead | crates/core/src/audit.rs:71-111 | a JSON reader gets every value back from its canonical text, and reads no further |
| AuditLog.HandOrderIsSorted | crates/core/src/audit.rs:36-69 | the hand-ordered text hashed when writing is the key-sorted text hashed when verifying |
| AuditLog.FindLastHash | crates/core/src/audit.rs:178-194 | scanning back finds the hash of the last object that has one |
| AuditLog.ReadLast | crates/core/src/audit.rs:143-200 | the tail window without its torn last line gives the previous hash, genesis, or an error |
| AuditLog.Log.Audit | crates/core/src/audit.rs:202-251 | a call appends one line about it and anchors its hash; a refused one changes nothing; one whose append or head write fails leaves what was written and reports an error |
| AuditLog.CallIsRecorded | crates/core/src/audit.rs:202-231 | the record has the call's time, user, action and outcome, at most 120 characters of its target and 500 of its error, its own hash, and the hash before it: 64 zeros on an empty log |
| AuditLog.LastLineTells | crates/core/src/audit.rs:202-251 | the last line of the log then reads as an object with exactly these eight members |
| AuditLog.LinesEndEitherWay | crates/core/src/audit.rs:295-300 | a line ended by CR LF is the line ended by LF |
| AuditLog.Log.AuditVerify | crates/core/src/audit.rs:272-355 | verifying the stored log gives the verdict `VerifyExact` characterizes |
| AuditLog.VerifyPass | crates/core/src/audit.rs:295-355 | the loop with running values computes the verdict `VerifyExact` characterizes, an unreadable line ending it |
| AuditLog.VerifyExact | crates/core/src/audit.rs:272-391 | a log is accepted if and only if it is well formed, its chain is linked from genesis and, when anchored, ends in the anchor; entries counts the chain |
| AuditLog.AnchorFixesChain | crates/core/src/audit.rs:272-391 | two logs accepted under one anchor hold the same chained records, or exhibit a hash collision or a genesis preimage |
| AuditLog.RunVerifies | crates/core/src/audit.rs:143-391 | any number of calls that append to a legacy log, blank lines included, leaves one entry a call, accepted exactly when the first call started from genesis and the anchor is the last hash |
| AuditLog.LongLineBlocks | crates/core/src/audit.rs:143-200 | after a line that exceeds the tail window, together with the torn bytes behind it if any, no call succeeds |
| AuditLog.SuccessfulCallsVerify | crates/core/src/audit.rs:143-391 | any number of successful calls on an empty or hashless log of any size leaves a log that is accepted under its last hash, with one entry a call |
| AuditLog.TornLineBreaksLog | crates/core/src/audit.rs:231-242 | a record appended to torn bytes makes the log fail under every head and whatever follows, unless both together read as an object or as blank |
| AuditLog.FailedAppendBreaksLog | crates/core/src/audit.rs:143-251 | after whole lines and the beginning of a line left by a failed append, a call succeeds exactly when the beginning and the record before it fit the tail window; it chains to that record, and the log then fails under every head and whatever follows |
| AuditLog.FailedFirstAppendBlocks | crates/core/src/audit.rs:160-174 | when the first append of all failed midway, every later call is refused |
| AuditWorld.FailedAppendHappens | crates/core/src/audit.rs:202-251 | a call, an append that fails after one byte, a call that succeeds, and a log that fails for good |
| AuditWorld.LineDeterminesRecord | crates/core/src/audit.rs:229-231 | distinct records have distinct lines |
| AuditWorld.LineIsRead | crates/core/src/audit.rs:229-231 | a JSON reader takes a line for the object with the record's fields |
| AuditWorld.NoLineInLine | crates/core/src/audit.rs:229-231 | no proper end of a record line is a record line |
| AuditWorld.AssumptionsCanHold | crates/core/src/audit.rs:178-195 | the four assumptions on the foreign JSON reader and the hash can hold together, and a first call then succeeds |
| AuditLog.StartsAtGenesisExactly | crates/core/src/audit.rs:143-200 | on whole lines of any total size, the previous hash is none without an error exactly when there are no lines, or the tail window shows some object and no hash |
| MemberName.JoinUndoesSplit | crates/core/src/backup.rs:336-348 | rejoining the components of a name gives the name back |
| MemberName.NormalizeResults | crates/core/src/backup.rs:332-370 | exactly the names with proper components under the allowlist and a managed owner are results, and each is its own result |
| MemberName.ResultsByParts | crates/core/src/backup.rs:332-370 | a name is a result exactly when its components are proper and it lies in one of the eight allowed directories, below `home` only for managed users |
| MemberName.WrittenNameReads | crates/core/src/backup.rs:332-348 | leading slashes, and backslashes for slashes, are understood |
| Restore.StagingForcesDistinct | crates/core/src/backup.rs:446-468 | an archive that stages has distinct regular members, and the staging tree holds exactly those |
| Restore.StagesExactly | crates/core/src/backup.rs:446-468 | an archive stages if and only if every member has a path and no file member is at or above the place of another |
| Restore.RestoresExactlyWhen | crates/core/src/backup.rs:434-533 | when nothing fails, a restore succeeds if and only if its archive stages and no file stands above a target |
| Restore.FailureRestores | crates/core/src/backup.rs:470-601 | when any step fails, contents are as before, no new file remains, and a mode is as before or masked to 0o777 |
| Restore.FailuresAreUndoneExactlyWhen | crates/core/src/backup.rs:470-601 | all failing restores of an archive leave the files exactly as before if and only if no reached member has an existing target with mode bits above 0o777 |
| Restore.StagedNotNested | crates/core/src/backup.rs:446-468 | no staged file is an ancestor of another, so landing one never blocks the next |
| Restore.FailedRestoreChangesMode | crates/core/src/backup.rs:1120-1128 | a failing restore after which a file of mode 0o2640 has mode 0o640 |
| Restore.SuccessLandsAll | crates/core/src/backup.rs:470-611 | when all steps succeed, each target holds the archived bytes, in mode 0o600 for `totp.key` and `sasl_passwd` and 0o640 for all others; other files are untouched, and members are reported in order |
| Restore.RollbackNeedsDistinct | crates/core/src/backup.rs:544-601 | with repeated members the rollback would restore wrong contents, so exclusive staging is needed |
| Restore.Destination.Land | crates/core/src/backup.rs:544-568 | landing one member in place, for every point of failure: what changes and what the undo notes say |
| Restore.Destination.RollBack | crates/core/src/backup.rs:570-601 | the rollback loops put overwritten files back and delete created ones, as the laws above assume |
| Restore.Destination.ExtractArchive | crates/core/src/backup.rs:434-533 | the two-phase extraction, for every point of failure, has the outcome the two laws above are about |
| Ledger.SortDistinctSorts | crates/core/src/totp.rs:407-419 | the booked ledger lists the same steps strictly descending |
| Ledger.Booking | crates/core/src/totp.rs:407-419 | booking keeps the ledger bounded and remembers every accepted step or only larger ones |
| Ledger.NoStepTwice | crates/core/src/totp.rs:552-581 | in every run whose clock falls at most five steps, no step in the code window is accepted twice |
| Ledger.SafeFallIsExact | crates/core/src/totp.rs:407-419 | five is exact: replays are impossible in all runs of a given fall if and only if it is at most five |
| TwoFactor.MatchingStepIsCurrent | crates/core/src/totp.rs:266-286 | a code matches exactly when its six digits are the truncated HMAC of a half-minute within one of the clock's |
| TwoFactor.ConsumeHash | crates/core/src/totp.rs:530-538 | the consuming loop drops exactly the first match |
| TwoFactor.EnabledOnlyByEnrolment | crates/core/src/totp.rs:421-493 | over all runs of operations, the factor becomes enabled only by an enable whose code is current for the secret of the latest begin |
| TwoFactor.DisabledOnlyByCheck | crates/core/src/totp.rs:495-511 | it stops being enabled only by a disable whose own check succeeded |
| TwoFactor.PasswordChangeKeepsFactor | crates/core/src/config.rs:273-313 | changing name or password keeps the factor and the key |
| TwoFactor.RecoveryUsesOne | crates/core/src/totp.rs:513-550 | a recovery success uses exactly one stored hash, that of the code; any other outcome none |
| TwoFactor.RecoveryCodesConserved | crates/core/src/totp.rs:513-610 | while enabled, codes left plus codes used is constant over every run |
| TwoFactor.HashesConserved | crates/core/src/totp.rs:513-610 | while enabled, the hashes left and the hashes spent are those the enrolment began with |
| TwoFactor.IssuedCodeIsAccepted | crates/core/src/totp.rs:458-610 | every recovery code an enrolment issued is accepted, in any letter case and with blanks and dashes anywhere, after any run that keeps the factor enabled and has spent fewer codes of its hash than were issued |
| TwoFactor.EnrolmentWorks | crates/core/src/totp.rs:421-493 | `begin` works unless enabled or unconfigured, and the next `enable` takes exactly the current codes of the secret it handed out |
| TwoFactor.CurrentCodeIsAccepted | crates/core/src/totp.rs:552-610 | a code none of whose steps is booked is accepted exactly when it is current |
| TwoFactor.DisableExactly | crates/core/src/totp.rs:495-511 | `disable` goes through exactly with a configuration and, when enabled, a successful check; only the factor changes |
| TwoFactor.CredentialsAreStored | crates/core/src/config.rs:273-313 | when a change of credentials goes through, and what is stored then |
| TwoFactor.KeyIsKept | crates/core/src/totp.rs:421-493 | a master key, once there, stays over every run |
| TwoFactor.NoStepAcceptedTwice | crates/core/src/totp.rs:552-610 | while a block that began with an empty ledger stays enabled, no run of operations with a clock fall of at most five steps accepts a step twice |
| TwoFactorRaces.RemovalIsCheckedUnlessRaced | crates/core/src/totp.rs:495-610 | in every interleaving of locked steps, an enabled factor is removed only by the end of a disable, checked against that very enrolment unless it was completed since the state was read or the code checked |
| TwoFactorRaces.ApprovedByCheck | crates/core/src/totp.rs:583-610 | a disable is approved only by booking a step or consuming a recovery hash of the enrolment of that moment |
| TwoFactorRaces.EnrolmentRemovedUnchecked | crates/core/src/totp.rs:495-511 | a disable that read a pending enrolment removes it after its completion, with no check |
| AdminFiles.Files.Begin | crates/core/src/totp.rs:421-456 | starts an enrolment unless enabled; the key is created even when refused |
| AdminFiles.Files.Enable | crates/core/src/totp.rs:458-493 | completes a pending enrolment for a current code, with hashed recovery codes and an empty ledger |
| AdminFiles.Files.ConsumeTotpStep | crates/core/src/totp.rs:552-581 | one locked step: checks, refuses a used step, books a new one |
| AdminFiles.Files.ConsumeRecoveryCode | crates/core/src/totp.rs:513-550 | one locked step: removes the first matching hash |
| AdminFiles.Files.Verify | crates/core/src/totp.rs:583-610 | tries the code as time-based, then as a recovery code |
| AdminFiles.Files.Disable | crates/core/src/totp.rs:495-511 | removes the block after a successful check when enabled |
| AdminFiles.Files.AdminSet | crates/core/src/config.rs:273-313 | refuses a bad name or a bad new password, else rewrites name and password, carrying the factor over |
| MailboxCache.CacheIsRightExactlyWhen | crates/core/src/mailbox_passwords.rs:99-178 | for every history of the file: all interleavings answer every get, errors included, with what loading the file gave between its call and its return, if and only if repeated stamps do no harm |
| MailboxCache.AnswersAreLinearizable | crates/core/src/mailbox_passwords.rs:99-178 | so they do when every write gives the file a stamp it never had |
| MailboxCache.CallAndReturnTimes | crates/core/src/mailbox_passwords.rs:99-141 | the recorded call and return times are those of a thread's first and last step |
| MailboxCache.ChangeIsWritten | crates/core/src/mailbox_passwords.rs:150-178 | an upsert or remove writes the records with that one key set or gone, or nothing at all |
| MailboxCache.ChangeIsSeen | crates/core/src/mailbox_passwords.rs:99-178 | a get called after such a write, with no write since, answers the changed records, as long as repeated stamps do no harm |
| MailboxCache.GetFinishes | crates/core/src/mailbox_passwords.rs:103-141 | a get is over after at most four steps of its own |
| MailboxCache.RepeatedStampIsStale | crates/core/src/mailbox_passwords.rs:103-141 | every harmful repetition has an interleaving, with the same history, that answers contents the file did not hold during the call |
| TxtCache.Cache.EnforceCapacity | crates/auth/src/cache.rs:78-117 | drops the expired, then evicts by expiry and pinned records last, never the kept key; raw texts go along; the loop ends |
| TxtCache.Cache.StoreRecord | crates/auth/src/cache.rs:51-66 | pins a record, with or without its raw text |
| TxtCache.Cache.StoreRecordIfAbsent | crates/auth/src/cache.rs:68-76 | pins a record only where there is none |
| TxtCache.Cache.InsertRecord | crates/auth/src/cache.rs:218-225 | stores with a capped expiry and drops the raw text |
| TxtCache.Cache.GetRecord | crates/auth/src/cache.rs:183-203 | answers live entries and drops expired ones with their raw text |
| TxtCache.Cache.RemoveRecord | crates/auth/src/cache.rs:205-216 | removes an entry and its raw text |
| TxtCache.Cache.RawRecord | crates/auth/src/cache.rs:160-179 | the first candidate with both a raw text and an entry |
| TxtCache.RunFaithful | crates/auth/src/cache.rs:51-226 | in every run: at most `MAX_ENTRIES` entries, raw texts only beside pinned records, each entry as last written |
| TxtCache.LookupIsFresh | crates/auth/src/cache.rs:183-226 | a lookup answers the last write to the key, never at or past `min(valid_until, insertion + MAX_TTL)` |
| TxtCache.LookupAnswersExactly | crates/auth/src/cache.rs:183-226 | in every run, a key the cache holds answers its last write, an inserted one exactly until the earlier of its expiry and 3,600 seconds |
| TxtCache.WrittenIsAnswered | crates/auth/src/cache.rs:51-76 | what is written is answered at once, with or without its raw text |
| TxtCache.LookupDropsExpired | crates/auth/src/cache.rs:183-203 | a lookup past the expiry drops entry and raw text, any other changes nothing |
| TxtCache.LeavesInOrder | crates/auth/src/cache.rs:78-117 | a write drops all expired entries, and live ones only from a full cache, in the order of their expiry |
| TxtCache.RawBesideItsRecord | crates/auth/src/cache.rs:51-66 | a raw text is only held beside the very record it was stored with |
| TxtCache.PinnedGoesLast | crates/auth/src/cache.rs:78-117 | a pinned record leaves only by removal, or when no TTL-bound record but the written one is left |
| Limiter.RateLimiter.AllowRequest | crates/imappop3/src/limiter.rs:42-72 | one request on the table in place: pruning when full, refusal, a new window after the old one or a clock set back, the count |
| Limiter.TableBounded | crates/imappop3/src/limiter.rs:52-57 | the table never exceeds `MAX_TRACKED_IPS`, in any run |
| Limiter.PruningIsInvisible | crates/imappop3/src/limiter.rs:52-57 | with a steady clock, pruning changes no answer as long as the table-full refusal is not taken |
| Limiter.RateBound | crates/imappop3/src/limiter.rs:42-72 | with a steady clock and a positive window, one address is allowed at most twice the limit in any closed interval of the window's length |
| Limiter.RateBoundIsReached | crates/imappop3/src/limiter.rs:42-72 | the bound is reached for every limit and window |
| Limiter.AllowsExactly | crates/imappop3/src/limiter.rs:42-72 | a request is allowed exactly when its address has room among the 65,536 and its limit is not used up |
| Limiter.RefusalIsEarned | crates/imappop3/src/limiter.rs:42-72 | with a steady clock, an address with room is refused only after the limit's worth of allowed requests within the last window's length |
| Limiter.NoWindowNoLimit | crates/imappop3/src/limiter.rs:42-72 | without a positive window every request is allowed but for a full table |
| Throttle.AuthThrottle.Check | crates/imappop3/src/auth.rs:222-238 | denies exactly the locked, and for how long |
| Throttle.AuthThrottle.Failure | crates/imappop3/src/auth.rs:240-280 | one failure on the table in place: pruning when full, an elapsed lock or window starts anew, the last failure locks and resets the count |
| Throttle.AuthThrottle.Succeed | crates/imappop3/src/auth.rs:282-286 | a success forgets the account |
| Throttle.AuthThrottle.AuthenticateRequest | crates/imappop3/src/auth.rs:310-331 | a locked account is refused without the inner check, other outcomes pass through and are recorded |
| Throttle.FailureBound | crates/imappop3/src/auth.rs:222-331 | in sequential runs without a success and with room, at most `max_failures + max(0, max_failures - 2)` failed checks reach the inner check in any interval of the window's length that excludes its end, and at most `max_failures` when the window is one second |
| Throttle.FailureBoundIsReached | crates/imappop3/src/auth.rs:222-331 | for every configuration whose window and lockout together fit the clock, some such run reaches that bound |
| Throttle.ClosedIntervalHoldsMore | crates/imappop3/src/auth.rs:222-331 | with a lockout equal to the window, an interval that includes its end can hold `2 * max_failures` |
| Throttle.LockIsEarned | crates/imappop3/src/auth.rs:222-331 | an account is denied only within a lockout of its last failed check, and when its last `max_failures` failed checks lie within one window's length |
| Throttle.NegativeClockDenies | crates/imappop3/src/auth.rs:222-280 | before 1970 a first failure already denies |
| Throttle.LocksExactly | crates/imappop3/src/auth.rs:240-280 | what a failure counts as, and when and for how long it locks |
| Throttle.RecordedExactly | crates/imappop3/src/auth.rs:240-254 | a failure is recorded exactly when there is room among the accounts that matter, or its account is one of them |
| Throttle.SuccessForgets | crates/imappop3/src/auth.rs:282-331 | a success forgets its account and no other |
| Throttle.SpellingsShareAccount | crates/imappop3/src/auth.rs:310-331 | names are one account exactly when they agree but for letter case and blanks around them |
| Throttle.StoredCountsBelowLimit | crates/imappop3/src/auth.rs:240-280 | in every run at all, a stored failure count stays below the limit |
| LineIo.Reader.Pump | crates/imappop3/src/lineio.rs:100-117 | one read moves a chunk into the buffer and keeps the stream |
| LineIo.Reader.ReadLine | crates/imappop3/src/lineio.rs:61-98 | for every chunking the line is one the whole stream allows, and the buffer never exceeds `max + READ_CHUNK` |
| LineIo.Reader.ReadExact | crates/imappop3/src/lineio.rs:155-175 | exactly the next `count` bytes of the stream, or an error when over the limit or at the end |
| LineIo.ReadFromAllowed | crates/imappop3/src/lineio.rs:61-98 | every chunking gives the result of the whole stream; it may differ only for a line of `max` bytes and CR LF |
| LineIo.FittingLineIsRead | crates/imappop3/src/lineio.rs:61-98 | a line that fits, ended by LF or CR LF, is read whole however it arrives |
| LineIo.LongLineIsRefused | crates/imappop3/src/lineio.rs:61-98 | a line over the limit is refused however it arrives |
| LineIo.ChunkingDecides | crates/imappop3/src/lineio.rs:63-80 | every such line is refused byte by byte and accepted with CR and LF in one read |
| LineIo.LineConserves | crates/imappop3/src/lineio.rs:61-98 | a line, its terminator and the rest make up the stream, and the line has at most `max` bytes and no LF |
| LineIo.Serve | crates/imappop3/src/lineio.rs:61-175 | sequences of line and literal requests are answered as on the whole byte string, nothing lost or repeated |
| ManageSieve.Tokenize | crates/imappop3/src/managesieve.rs:431-473 | the tokenizing loops compute the arguments the laws below are about, or an error for an unclosed string |
| ManageSieve.ReadQuoted | crates/imappop3/src/managesieve.rs:441-460 | the inner loop reads one quoted string, an unknown escape kept as it stands |
| ManageSieve.Quote | crates/imappop3/src/managesieve.rs:475-486 | the quoting loop writes the quoted form |
| ManageSieve.TokenizeUndoesQuote | crates/imappop3/src/managesieve.rs:431-486 | for every list of strings, tokenizing the space-joined quotes gives exactly that list |
| ManageSieve.ArgumentsRead | crates/imappop3/src/managesieve.rs:431-473 | every mix of quoted and bare arguments with any blanks around them is read back |
| ManageSieve.UnknownEscapeIsKept | crates/imappop3/src/managesieve.rs:441-460 | a backslash before another character stands for itself |
| ManageSieve.LoneBackslashFails | crates/imappop3/src/managesieve.rs:444-458 | a backslash at the end of the line is an error |
| ManageSieve.UnclosedFails | crates/imappop3/src/managesieve.rs:444-458 | a quoted string that is never closed is an error |
| BaseEncoding.Base32Encode | crates/core/src/totp.rs:200-217 | the unmasked 32-bit register computes the five-bit groups of section 6 of RFC 4648, without padding |
| BaseEncoding.RegisterTakesByte | crates/core/src/totp.rs:205-206 | the bits the register loses are never needed |
| BaseEncoding.LettersOfDigits | crates/core/src/totp.rs:200-217 | the letters are those of tables 3 and 1 of RFC 4648 |
| BaseEncoding.Base32Inverts | crates/core/src/totp.rs:200-217 | every byte sequence is decoded back from its base32 text |
| BaseEncoding.Base64Encode | crates/auth/src/keys.rs:86-107 | three bytes at a time computes the six-bit groups of section 4 of RFC 4648, with padding |
| BaseEncoding.ChunkFirst | crates/auth/src/keys.rs:88-105 | four characters for the first three bytes, then the encoding of the rest |
| BaseEncoding.Base64Inverts | crates/auth/src/keys.rs:86-107 | every byte sequence is decoded back from its base64 text |
| BaseEncoding.Base64Length | crates/auth/src/keys.rs:86-107 | four characters for every three bytes, begun ones included |
| ZoneText.TxtChunks | crates/auth/src/keys.rs:164-178 | the chunks join to the value, hold whole characters and at most 255 UTF-8 bytes, and none has room for the next character |
| ZoneText.LastBoundary | crates/auth/src/keys.rs:168-172 | the cut is the last character boundary within 255 bytes, and never at zero |
| ZoneText.FewestChunks | crates/auth/src/keys.rs:164-178 | no cutting into pieces of at most 255 bytes needs fewer chunks |

## Left out

- The address and content-type parsers, and quoted-printable and base64 decoding of bodies: they and the header parser are parameters of the structure printer, whose theorems hold for any result they give.
- The raw bytes of header lines and the header blocks printed from them.
- Lossy UTF-8 decoding and Rust's `String`: text is a sequence of characters whose UTF-8 bytes are modelled by `Utf8.Encode`, and of the decoder of header lines only `Headers.DecodesText` is assumed, that it gives well-formed text back.
- The error texts: an error is one value, and where several checks fail together their order is not modelled.
- `parse_header_date` and `format_date`: the same fields as above in a laxer order.
- SHA-256, HMAC, PBKDF2, AES-GCM and RSA: parameters. The tamper theorem is a reduction to a collision or a genesis preimage rather than an assumption that there is none.
- The JSON reader and the number printer: a number is the text it prints as, and what the library does with written lines and their ends, strict or lossy about UTF-8, is the named assumptions `ReadsRecords`, `RefusesFragments` and `RefusesJoined`.
- The tar, gzip and gpg layers, created directories, ownership and hard links in the restore: files are contents and mode bits, and members arrive as path, kind and bytes. That `exists()` and `metadata` tell the truth is assumed.
- Restore.FailuresAreUndoneExactlyWhen: directories of the destination are not modelled, so a target that is an existing directory is taken for a free one. In the code no landing gets past such a member, since a directory cannot be copied aside, so the members after it, which `Restore.Reached` admits, are never reached there.
- Failures of the rollback's own input and output: the rollback is proved for the case that its steps succeed.
- Validation of archive sizes, member kinds and checksums before extraction.
- An administrator configuration that cannot be parsed, unknown envelope versions and damaged ledgers: the two-factor theorems are about readable configurations.
- Interleavings of the two-factor operations other than with `disable`: enrolment and password changes have one locked step each, and the replay and recovery laws are about runs of whole operations.
- Recovery-code generation, the otpauth link and percent encoding.
- Constant-time comparison: it is equality.
- The mailbox password file is modelled as a state machine over atomic steps instead of a class, because its theorem is about interleavings; key normalisation and the refusal of an empty user name are left out.
- The normalisation of DNS names, and the parsers of SPF, DMARC and DKIM records: keys and records are strings.
- Poisoned locks in the limiter, the throttle and the caches.
- DEFLATE, TLS and the writing half of the line transport.
- The text around the chunks of a zone file fragment, DER lengths and PEM lines.
- The queue, the SMTP session, the maildir index and the Sieve compiler.
- Throttle.FailureBound: concurrent requests for one account are excluded, since each of them may pass the check before the first failure is recorded.
