# PMail: a verified model

PMail is a mail server written in Go. This project models the parts of it that are algorithms and protocols rather
than input and output, and proves what they are for:

- **Mailbox names and headers.** Modified UTF-7 (section 5.1.3 of RFC 3501) and encoded-words (RFC 2047), encoder
  and decoder, with UTF-8, UTF-16 and base64 defined from scratch. Go strings are sequences of bytes, valid or not.
- **Outbound delivery.** A submitted message from its durable record through the grouping of recipients, the mail
  hosts of each destination, the ways into each host and the SMTP dialogue of each attempt, to the reply the
  submitting client gets. Servers, networks, databases and crashes are arbitrary parameters.
- **IMAP SEARCH** over a tree of criteria of any depth, and the numbering of messages it rests on.
- **The mail store.** Emails reference-counted by `user_email` rows, and the forest of groups with cached paths.
- **IMAP IDLE.** The registry of waiting clients under every interleaving of its critical sections.

Each module carries the name of what it models. Code that changes things step by step is a class or a method with
loops, proved against a specification function or predicate; the theorems are lemmas about that specification.

| area | modules |
|---|---|
| codecs | `Utf8`, `Utf16`, `Base64`, `Utf7`, `Utf7Proofs`, `EncodedWord`, `EncodedWordProofs` |
| delivery | `Transaction`, `Audit`, `SmtpSession`, `DomainMatch`, `Failover`, `SendMany`, `DeliveryReply`, `ErrorTree`, `Submission` |
| search and numbering | `Search`, `Listing` |
| store | `MailDb`, `Store`, `Groups`, `Incoming` |
| idle | `Idle` |
| shared | `Bytes`, `Substrings`, `Strings`, `Ids` |

`dafny verify dfyconfig.toml` checks everything.

## How to read the model

- A failing statement, a lost connection or a full database is an argument of the method that meets it: a function
  from the step to the error, so every theorem holds for all of them.
- `Audit.Environment.others` is whatever other sessions and the send hooks do to the database between the two
  transactions of a delivery; the safety theorem puts no condition on it.
- A failed ROLLBACK inside a delivery does not make uncommitted work durable (`Audit.TxWorld`). The transaction
  theorems themselves also cover engines where it does.
- `SmtpSession.Peer` and `Failover.World` are any servers behind any network: functions from everything said before to
  the next answer. What an attempt, a host, a destination and a message come to is a function of them. The one thing
  assumed of transport errors is that they are not, and do not wrap, a reply of the server.
- `EncodedWord.OtherCharsets` stands for the conversions that PMail leaves to a library or to the caller (GBK,
  GB18030, `CharsetReader`). The exact round trips assume of it only that ASCII text it produces is no longer than what
  it was converted from, which holds where ASCII stands for itself.
- What a shared function means is stated in numbers, characters and single rows, without naming the function: the codes
  of SMTP, the bytes of words and names, the statuses of mailboxes, what each search key finds.
- Times carry a fixed zone offset; `strings.ToLower` and SQL's LOWER are parameters.

## Where the code does not meet the ideal

The model follows the code. Each of these is stated with its exact condition or with a counterexample.

- `DecodeHeader` returns an error for an unknown charset without a `CharsetReader`, although its comment speaks of
  errors of the reader only (`server/dto/parsemail/encodedword.go:228-229`, `315-355`; `DecodeFailsIff`,
  `UnknownCharset`).
- Unencoded text that happens to contain an encoded-word is changed by decoding (`RoundTripIff`, `ChangedPlainText`).
- SEARCH joins several UID sets, several sequence sets and several OR keys of one node by "or"; section 6.4.4 of
  RFC 3501 asks for "and" (`ShapeIff`, `WrongAnswer`). SEARCH DELETED, DRAFT and JUNK find nothing in the mailboxes
  those flags stand for, because the listing does not read the status (`StatusFlagIff`).
- A fetch by number ignores messages filed in a group, a listing counts them (`FetchAgreesIff`, `FetchAllIff`).
- `DelByUID` stops silently at the first key that is not, or no longer, a link of the user (`AcceptedAllIff`), and
  runs without a transaction, so a failing statement can leave an email nobody can reach (`FaultyDeleteIff`,
  `OrphanStays`). `DelGroup` has no transaction either (`HalfDeletionIff`).
- A group can become its own parent (`SelfParentPossible`), and renaming a group with children leaves their cached
  paths stale (`RenamePathsIff`).
- Recipients without exactly one '@' are skipped and the message still counts as sent (`SkippedIff`). When two
  destinations of one domain fail differently, the error reported for the domain depends on which goroutine ends
  last (`ErrMapFixedIff`, `TwoFailures`). The domain "localhost" is delivered without TLS (`InClearIff`).
- An IDLE that registers again under the log id of its connection before the previous cleanup ran loses its
  registration to that cleanup (`SurvivesIff`, `RunWithReuse`), and a third command of the user can lose its own
  (`ReusedLogId`). The log id is one per connection (`server/listen/imap_server/server.go:47`). Issuing IDLE again after
  the cleanup ran is harmless (`Run`).

## Model

| member | source | states |
|---|---|---|
| Utf8.EncodeThenDecode | server/utils/utf7/encoder.go:42-57 | reading a written rune gives the rune, whatever follows |
| Utf8.DecodeThenEncode | server/utils/utf7/encoder.go:42-57 | a well-formed encoding is the one that would be written: the form is unique |
| Utf8.SanitizeIsReencoding | server/utils/utf7/encoder.go:42-57 | decoding bytes to runes and writing them again replaces each undecodable byte by U+FFFD |
| Utf8.ValidSplitAtAscii | server/utils/utf7/decoder.go:22-60 | cutting valid UTF-8 around an ASCII byte leaves valid parts |
| Utf16.RoundTrip | server/utils/utf7/decoder.go:92-116 | UTF-16BE with surrogates decodes to the runes it was made of |
| Utf16.ToUtf8Valid | server/utils/utf7/decoder.go:92-116 | decoded UTF-16 is valid UTF-8 |
| Utf16.UnitsAre | server/utils/utf7/encoder.go:42-57 | one unit, or the surrogate pair of section 2.1 of RFC 2781, as numbers |
| Base64.DecodeEncode | server/utils/utf7/utf7.go:13 | decoding inverts encoding for any alphabet of 64 different characters, with padding |
| Base64.EncodeShape | server/utils/utf7/encoder.go:59-71 | length and padding of the encoding |
| Base64.GroupIs | server/utils/utf7/utf7.go:13 | three bytes are one number of 24 bits, written as four digits |
| Base64.EndIs | server/utils/utf7/encoder.go:59-71 | one and two bytes at the end: zero bits, then "=" |
| Base64.DigitsAndSigns | server/utils/utf7/utf7.go:13 | the last characters of the alphabets: "," in mailbox names, "/" in headers |
| Utf7.ToUtf16 | server/utils/utf7/encoder.go:42-57 | the loop over runes writes their UTF-16BE units |
| Utf7.EncodeRun | server/utils/utf7/encoder.go:42-72 | a run becomes '&', base64 without padding, '-' |
| Utf7.Encode | server/utils/utf7/encoder.go:10-38 | the index loop computes the encoding of the whole name |
| Utf7.Allocate | server/utils/utf7/decoder.go:75-92 | one buffer holds the padded text and room for three times the decoded bytes |
| Utf7.Transcode | server/utils/utf7/decoder.go:92-118 | in place in that buffer, UTF-16 becomes UTF-8 and the room is never exceeded |
| Utf7.NextRune | server/utils/utf7/decoder.go:95-109 | one unit or one surrogate pair, and where decoding gives up |
| Utf7.DecodeSegment | server/utils/utf7/decoder.go:75-118 | the decoding of a segment, errors included |
| Utf7.SegmentEnd | server/utils/utf7/decoder.go:36-47 | the end of a shifted segment, or the error |
| Utf7.Shift | server/utils/utf7/decoder.go:31-66 | one shift: "&-", a segment, or an error |
| Utf7.Decode | server/utils/utf7/decoder.go:16-71 | the scanner with its shift flag computes the decoding |
| Utf7Proofs.PaddingRestored | server/utils/utf7/encoder.go:59-71 | stripping the padding loses nothing |
| Utf7Proofs.SegmentRoundTrip | server/utils/utf7/decoder.go:75-118 | a segment decodes to its run |
| Utf7Proofs.RoundTripAnyBytes | server/utils/utf7/decoder.go:16-118 | for all bytes, decoding the encoding gives them back with undecodable bytes as U+FFFD |
| Utf7Proofs.RoundTripValid | server/utils/utf7/decoder.go:16-118 | section 5.1.3 of RFC 3501: valid names survive the round trip |
| Utf7Proofs.RoundTripIff | server/utils/utf7/decoder.go:16-118 | and no other names do |
| Utf7Proofs.EncodedInjective | server/utils/utf7/encoder.go:10-38 | two valid names never share an encoding |
| Utf7Proofs.EncodedIsPrintable | server/utils/utf7/encoder.go:10-38 | the encoding is printable 7-bit text |
| Utf7Proofs.DecodeNormalises | server/utils/utf7/decoder.go:16-118 | whatever is accepted decodes to valid UTF-8 whose encoding is printable and decodes to the same name |
| Utf7Proofs.NameIs | server/utils/utf7/encoder.go:10-72 | a name character by character: plain text as it is, a longest run of other bytes as "&", base64 of its UTF-16 without "=", "-" |
| Utf7Proofs.AmpersandIs | server/utils/utf7/encoder.go:18-24 | "&" is written "&-" |
| Utf7Proofs.TaipeiIs | server/utils/utf7/encoder.go:10-72 | the example of section 5.1.3 of RFC 3501: U+53F0 U+5317 is "&U,BTFw-" |
| Utf7Proofs.Refused | server/utils/utf7/decoder.go:22-47 | control characters, "&" without "-" and line breaks in a segment are errors |
| EncodedWord.CheckNeedsEncoding | server/dto/parsemail/encodedword.go:42-49 | whether some rune is not printable ASCII |
| EncodedWord.Encode | server/dto/parsemail/encodedword.go:35-68 | the header text for a string, in B or Q |
| EncodedWord.BEncode | server/dto/parsemail/encodedword.go:82-88 | base64 in one word, or several |
| EncodedWord.BEncodeSplitting | server/dto/parsemail/encodedword.go:90-110 | the splitting loop of B puts each piece into a word of its own |
| EncodedWord.QEncode | server/dto/parsemail/encodedword.go:114-119 | quoted text in one word, or several |
| EncodedWord.QEncodeSplitting | server/dto/parsemail/encodedword.go:121-141 | the splitting loop of Q puts each piece into a word of its own |
| EncodedWord.WriteQString | server/dto/parsemail/encodedword.go:144-157 | spaces as underscores, printable bytes as they are, the rest as =XX |
| EncodedWord.QDecode | server/dto/parsemail/encodedword.go:374-400 | the decoding of quoted text, with its errors |
| EncodedWord.DecodeText | server/dto/parsemail/encodedword.go:304-313 | B or Q by its letter in either case, or an error |
| EncodedWord.Convert | server/dto/parsemail/encodedword.go:315-356 | UTF-8, ISO-8859-1 and US-ASCII content; other charsets by the parameter |
| EncodedWord.NextOutline | server/dto/parsemail/encodedword.go:242-275 | the next thing shaped like an encoded-word |
| EncodedWord.DecodeHeader | server/dto/parsemail/encodedword.go:230-302 | the header with its encoded-words decoded, as `ScanWord`, `TwoWords` and `DecodeFailsIff` say it |
| EncodedWordProofs.QRoundTrip | server/dto/parsemail/encodedword.go:374-400 | quoted text decodes to the bytes it was made of |
| EncodedWordProofs.TextRoundTrip | server/dto/parsemail/encodedword.go:304-313 | so does the text of a word in B and in Q |
| EncodedWordProofs.ScanWord | server/dto/parsemail/encodedword.go:236-300 | section 6.2 of RFC 2047: a word is replaced by its text; what stands in front is dropped exactly when it follows a word and holds nothing but spaces, tabs and line breaks |
| EncodedWordProofs.TwoWords | server/dto/parsemail/encodedword.go:230-302 | a whole header with two words, in B or Q each: white space between them goes, line breaks of a folded header included; any other text between, before or behind them stays |
| EncodedWordProofs.ChunksFlatten | server/dto/parsemail/encodedword.go:82-141 | the pieces of a split text are the text |
| EncodedWordProofs.HeaderRoundTrip | server/dto/parsemail/encodedword.go:230-302 | an encoded string comes back, however many words it takes, in B and in Q, for any bytes |
| EncodedWordProofs.PlainRoundTripIff | server/dto/parsemail/encodedword.go:230-302 | unencoded text comes back exactly when it holds no decodable encoded-word |
| EncodedWordProofs.ChangedPlainText | server/dto/parsemail/encodedword.go:42-49 | there is text that is left unencoded and holds one |
| EncodedWordProofs.WordIs | server/dto/parsemail/encodedword.go:160-178 | a word in characters: "=?", charset, "?b?" or "?q?", text, "?=" |
| EncodedWordProofs.QWrites | server/dto/parsemail/encodedword.go:144-157 | section 4.2 of RFC 2047: "_" for a space, visible characters but "=", "?" and "_" as they are, "=XX" for the rest |
| EncodedWordProofs.QReads | server/dto/parsemail/encodedword.go:374-400 | what Q decoding makes of each character but "=" |
| EncodedWordProofs.QReadsHex | server/dto/parsemail/encodedword.go:403-425 | "=" with two hexadecimal digits of either case is a byte |
| EncodedWordProofs.QReadsNoHex | server/dto/parsemail/encodedword.go:403-425 | with anything else it is an error |
| EncodedWordProofs.KnownCharsets | server/dto/parsemail/encodedword.go:315-356 | which conversion an ASCII charset name selects, in any case of its letters |
| EncodedWordProofs.Latin1Runes | server/dto/parsemail/encodedword.go:315-356 | an ISO-8859-1 byte is its own code point |
| EncodedWordProofs.AsciiRunes | server/dto/parsemail/encodedword.go:315-356 | a US-ASCII byte from 0x80 on is U+FFFD |
| EncodedWordProofs.DecodeFailsIff | server/dto/parsemail/encodedword.go:228-302 | a header is an error exactly when it holds a readable word in a charset that nothing converts |
| EncodedWordProofs.UnknownCharset | server/dto/parsemail/encodedword.go:315-355 | "=?x?q?a?=" is an error exactly when the charset "x" is not converted |
| EncodedWordProofs.RoundTripIff | server/dto/parsemail/encodedword.go:230-302 | the round trip over every string, exactly |
| EncodedWordProofs.NeedsEncodingIff | server/dto/parsemail/encodedword.go:42-49 | text is left unencoded exactly when all its bytes are 0x20 to 0x7E or tab |
| EncodedWordProofs.ScanShrinks | server/dto/parsemail/encodedword.go:236-300 | decoding never lengthens ASCII text and shortens it when a word is decoded |
| EncodedWordProofs.EncodedWordsAreShort | server/dto/parsemail/encodedword.go:70-178 | section 2 of RFC 2047: words of at most 75 bytes, separated by spaces |
| EncodedWordProofs.WordsAreFull | server/dto/parsemail/encodedword.go:70-141 | no word could take the first rune of the next one: it would be longer than 75 bytes |
| EncodedWordProofs.WordsKeepRunes | server/dto/parsemail/encodedword.go:82-141 | section 5 of RFC 2047: no rune is split across words |
| ErrorTree.AsIff | server/listen/smtp_server/delivery_error.go:81-94 | errors.As finds an error of a type exactly when the tree of wrapped and joined errors holds one |
| DeliveryReply.AsThroughWrap | server/utils/send/send.go:34-45 | wrapping does not change what is found |
| DeliveryReply.MaskedFallback | server/utils/send/send.go:244-257 | a temporary lookup failure makes a network failure of the fallback temporary, NXDOMAIN included |
| DeliveryReply.PermanentFallbackStands | server/utils/send/send.go:244-247 | a 5xx of the fallback is reported as it is |
| DeliveryReply.CauseIs | server/utils/send/send.go:244-257 | the cause that is recorded: the fallback's error, unless the lookup timed out or failed temporarily and the fallback met a network error |
| DeliveryReply.Classes | server/listen/smtp_server/delivery_error.go:81-94 | of bare errors 500 to 599 and a name that does not exist are permanent, nothing else |
| DeliveryReply.Precedence | server/listen/smtp_server/delivery_error.go:81-94 | in a joined error the protocol error decides, else the SMTP error, else DNS |
| DeliveryReply.DownstreamReply | server/listen/smtp_server/delivery_error.go:19-45 | no error, no reply; otherwise 550 if and only if there are domains and all failed for good |
| DeliveryReply.DeliveryMessage | server/listen/smtp_server/delivery_error.go:47-79 | the text of the reply, whatever the order of the map |
| DeliveryReply.ShortMessage | server/listen/smtp_server/delivery_error.go:47-72 | details that fit and are single-spaced stand in the message unchanged |
| DeliveryReply.DetailsAre | server/listen/smtp_server/delivery_error.go:55-66 | a detail is domain, ": " and error; without any, the error of the whole delivery |
| DeliveryReply.BoundedSize | server/listen/smtp_server/delivery_error.go:67-79 | at most 128 bytes; a shortened valid text keeps 122 to 125 bytes, cut at a rune, and "..." |
| DeliveryReply.MessageIsOneLine | server/listen/smtp_server/delivery_error.go:47-79 | no CR and no LF, at most 128 bytes |
| DeliveryReply.MessageIsValid | server/listen/smtp_server/delivery_error.go:47-79 | valid details give a valid message |
| DeliveryReply.SortedKeysUnique | server/listen/smtp_server/delivery_error.go:48-53 | the sorted list of domains does not depend on the order of iteration |
| DeliveryReply.ReplyIsSafe | server/listen/smtp_server/delivery_error.go:19-79 | every failure reply is 550 5.0.0 or 451 4.4.0, says which kind of failure it is and has one line of at most 128 bytes |
| Strings.SortSorts | server/listen/smtp_server/delivery_error.go:48-53 | sorting distinct strings keeps them and orders them |
| Strings.LessIff | server/listen/smtp_server/delivery_error.go:48-53 | the order: a proper prefix first, else by the first byte that differs |
| Strings.FieldsOfWords | server/listen/smtp_server/delivery_error.go:67-72 | the fields of words with spaces between are the words |
| Strings.LastRuneOfValid | server/listen/smtp_server/delivery_error.go:73-77 | removing the last rune of valid text leaves valid text |
| Strings.LastRuneIs | server/listen/smtp_server/delivery_error.go:73-77 | on any text: the well-formed encoding it ends with, or else the last byte |
| Transaction.Engine.RunTransactionAttempt | server/db/retry.go:54-73 | one attempt: begin, work, commit or roll back, and whether to retry |
| Transaction.Engine.TransactionWithRetry | server/db/retry.go:29-47 | the loop of attempts with its pauses |
| Transaction.RunIsAtomic | server/db/retry.go:29-73 | nil means exactly one committed application of the work, an error none where rollback works |
| Transaction.RetriesOnlyBusy | server/db/retry.go:29-84 | an attempt follows only BUSY or LOCKED, up to the allowed number |
| Transaction.BusyCodes | server/db/retry.go:77-84 | retryable are exactly the codes whose low byte is 5 or 6 |
| Transaction.AttemptFails | server/db/retry.go:54-73 | the error of each failing step, and that only a failed ROLLBACK forbids a retry |
| Transaction.PauseDoubles | server/db/retry.go:44 | the pause after attempt k is the first one times 2^(k-1), and none where 63 bits are exceeded |
| Transaction.OneAttempt | server/db/retry.go:29-47 | with at most one attempt allowed there is one |
| Transaction.AlwaysBusy | server/db/retry.go:18-47 | a database that stays busy: three attempts, pauses of exactly 50 ms and 100 ms, the last error |
| Transaction.SleepBound | server/db/retry.go:38-44 | the pauses add up to at most the first times 2^(attempts-1) - 1, even where the shift wraps |
| Transaction.DefaultBudget | server/db/retry.go:18-27 | with the constants used: at most three runs and 150 ms |
| Transaction.RetryKeepsDatabase | server/db/retry.go:54-73 | a retried attempt left the database as it was |
| Audit.Session.PersistInitialAudit | server/listen/smtp_server/audit_persistence.go:114-138 | an email row and a link for each user, or an error |
| Audit.Session.PersistDeliveryResult | server/listen/smtp_server/audit_persistence.go:74-93 | both rows get the outcome, or an error |
| Audit.RecordSucceedsIff | server/listen/smtp_server/audit_persistence.go:74-104 | recording succeeds exactly when no statement fails and there is one email row and one link to update |
| Audit.Server.DeliverOutgoingEmail | server/listen/smtp_server/audit_persistence.go:30-59 | the events of a delivery, its database, and its reply: 451 4.3.0 when nothing was recorded, else accepted exactly when the sender succeeded, else the reply to its errors |
| Audit.InsertAuditPending | server/listen/smtp_server/read_content.go:223-235 | a committed first write is one email of type 1 and status 6 with the text for an open outcome, and one link with status 6 |
| Audit.RecordResultAgrees | server/listen/smtp_server/audit_persistence.go:74-93 | a recorded outcome is the same status in both rows, with the error in the email, and nothing else in them |
| Audit.RecordResultFrame | server/listen/smtp_server/audit_persistence.go:74-93 | recording touches no other email and no other link |
| Audit.EveryRunIsSafe | server/listen/smtp_server/audit_persistence.go:30-59 | whatever fails: the sender is called at most once and behind a committed Pending record, both statuses agree in every committed state and are true, and the reply depends on the sender alone |
| Audit.SafeAfterCrash | server/listen/smtp_server/audit_persistence.go:30-59 | all of that for every run cut short by a crash after any of its events |
| Audit.CrashAnywhere | server/listen/smtp_server/audit_persistence.go:30-59 | whatever crash leaves a complete record, or nothing and nothing was sent, exactly when the other sessions left the record intact between the two transactions |
| Audit.OutcomeIsRecorded | server/listen/smtp_server/audit_persistence.go:48-53 | without a failing statement the outcome is recorded exactly when the other sessions left one email row and one link: status 1 and no error, or status 2 and the text of the sender's error |
| SmtpSession.Client.Cmd | server/utils/smtp/smtp.go:148-158 | the command that is due, the server's own answer to it, and the error of an unexpected one |
| SmtpSession.ParseExtensions | server/utils/smtp/smtp.go:175-183 | the extensions an EHLO reply lists |
| SmtpSession.Client.SayEhlo | server/utils/smtp/smtp.go:170-189 | EHLO, and the extensions on success only |
| SmtpSession.Client.SayHelo | server/utils/smtp/smtp.go:162-166 | HELO, without extensions |
| SmtpSession.Client.Hello | server/utils/smtp/smtp.go:121-130 | greeted once, by HELO where EHLO is refused |
| SmtpSession.Client.StartTLS | server/utils/smtp/smtp.go:193-213 | only where offered, followed by a new EHLO under TLS |
| SmtpSession.Client.Mail | server/utils/smtp/smtp.go:292-310 | parameters exactly as far as the last greeting offers them |
| SmtpSession.Client.Rcpt | server/utils/smtp/smtp.go:315-321 | the next recipient, accepted by 250 to 259 |
| SmtpSession.Client.Finish | server/utils/smtp/smtp.go:323-364 | content after 354, success by the final 250, QUIT not waited for |
| SmtpSession.Client.Transact | server/utils/smtp/smtp.go:391-403 | sender, every recipient in order, content |
| SmtpSession.Validate | server/utils/smtp/smtp.go:366-374 | no line with CR or LF |
| SmtpSession.Dial | server/utils/smtp/smtp.go:63-113 | connected and greeted by 220, on the course the server determines |
| SmtpSession.SendMail | server/utils/smtp/smtp.go:427-482 | what is said and what is returned are the dialogue and the verdict that this server determines, with STARTTLS; `NilIffAccepted`, `CommandOrder` and `DialogueOnTheWire` say what these are |
| SmtpSession.SendMailWithTls | server/utils/smtp/smtp.go:366-404 | the same with TLS from the start |
| SmtpSession.SendMailUnsafe | server/utils/smtp/smtp.go:485-524 | the same without TLS |
| SmtpSession.DialogueAsks | server/utils/smtp/smtp.go:148-158 | each outcome in a dialogue is that server's answer to that command after everything said before |
| SmtpSession.AttemptReported | server/utils/smtp/smtp.go:366-524 | for every server: no step against the order of RFC 5321 and RFC 3207, nil exactly on delivery, and a permanent error exactly after a 5xx |
| SmtpSession.GivesUpOnly | server/utils/smtp/smtp.go:366-524 | an attempt gives up only for an invalid line, at a command whose reply is not the one RFC 5321 asks for, or where STARTTLS is not offered |
| SmtpSession.RejectionIff | server/utils/smtp/smtp.go:148-158 | the reply codes that let each command through, as numbers; any other is the error |
| SmtpSession.ReplyTextIs | server/utils/smtp/smtp.go:148-158 | the text of a reply as an error: three digits, a space, the lines |
| SmtpSession.CommandOrder | server/utils/smtp/smtp.go:121-364 | what may precede each command and with which reply: EHLO after 220, HELO after a refused EHLO, STARTTLS and the parameters of MAIL exactly as the last EHLO lists them, recipients after 250 or 25x, content after 354, QUIT after 250 |
| SmtpSession.DialogueOnTheWire | server/utils/smtp/smtp.go:366-524 | where an attempt connects, how it greets, from which step on it is under TLS; and that it says nothing exactly when an address holds CR or LF |
| SmtpSession.DialogueFacts | server/utils/smtp/smtp.go:346-364 | in any dialogue the monitor admits, the content goes out at most once, after all recipients were accepted, and was taken exactly when the final reply is 250 |
| SmtpSession.SealedFacts | server/utils/smtp/smtp.go:427-482 | a sealed dialogue shows envelope and content only under TLS |
| SmtpSession.NilIffAccepted | server/utils/smtp/smtp.go:346-364 | nil if and only if some content was answered with 250, to all recipients |
| SmtpSession.PermanentIsLastReply | server/utils/send/send.go:188-191 | the error is permanent if and only if the server's last word was 500 to 599, and then no message was taken |
| DomainMatch.LabelsMatch | server/utils/send/send.go:280-302 | the two index loops accept exactly: enough labels, right-aligned labels equal or "*", further labels "*" |
| DomainMatch.DomainMatch | server/utils/send/send.go:267-312 | the domain when some name stands for it, else the last name with "smtp", else the first |
| DomainMatch.WildcardIff | server/utils/send/send.go:279-306 | a leading "*" stands for one label or none |
| DomainMatch.WildcardName | server/utils/send/send.go:267-306 | "*." and a name stand for that name, for it behind one more label, and for nothing else |
| DomainMatch.PlainName | server/utils/send/send.go:267-306 | a name without "*" stands for itself only |
| DomainMatch.OtherwiseChosen | server/utils/send/send.go:307-312 | without a match: the last name with "smtp" in it, or else the first, without its leading "*." |
| Failover.TryDeliverToMX | server/utils/send/send.go:195-242 | the attempts are those this network leads to on the host, and the error is that of the last |
| Failover.HostRunClimbs | server/utils/send/send.go:195-242 | for every network they are a run down the ladder of ways: from the top, to the first that delivers or is refused for good, or to the end |
| Failover.CertificateIsNotReply | server/utils/send/send.go:200-209 | the second STARTTLS attempt never follows a 5xx |
| Failover.WaysInto | server/utils/send/send.go:195-242 | STARTTLS on 25, again for the name a certificate proved, TLS on 587, TLS on 465, clear on 25: all of them unless one delivers or is refused with a 5xx |
| Failover.SecondName | server/utils/send/send.go:200-209 | a second name is asked for exactly when a certificate failed for its host name |
| Failover.WayUses | server/utils/send/send.go:195-242 | what each way sends and from when on it is under TLS |
| Failover.EachHostTried | server/utils/send/send.go:148-168 | the hosts of the list are tried in turn, and one is left out only behind a final 250 or a 5xx |
| Failover.FailsAllTried | server/utils/send/send.go:148-169 | a destination fails only after every host of its list was tried or one refused it with a 5xx, with the cause of the last error |
| Failover.Deliver | server/utils/send/send.go:128-169 | all that this network leads to for the destination, hosts in turn, and what is recorded, as `EachHostTried`, `WaysInto` and `DestinationFacts` say it |
| Failover.DeliveredOnce | server/utils/send/send.go:153-168 | only the last attempt can have delivered, and did exactly when its result is nil |
| Failover.DestinationFacts | server/utils/send/send.go:120-186 | per destination, over any host list and any network: nothing after a final 250 or a 5xx, at most one final 250, failure recorded exactly when there was none, at most five attempts a host |
| Failover.InClearIff | server/utils/send/send.go:140-146 | envelope or content goes out in clear exactly for "localhost" and on the last way into a host, after every way with TLS failed on it without a 5xx |
| SendMany.Group | server/utils/send/send.go:84-118 | recipients by destination in order, the last host list of each domain, the last lookup error of each destination |
| SendMany.DoSend | server/utils/send/send.go:76-186 | every destination makes the attempts its network leads to, and failures are recorded in any order |
| SendMany.SkippedIff | server/utils/send/send.go:89-117 | a recipient is passed over exactly when its address does not have one '@' |
| SendMany.ReportIsFailing | server/utils/send/send.go:129-138 | the reported recipients are those of the failed destinations, each as often as the message names it |
| SendMany.DestinationIs | server/utils/send/send.go:89-113 | the destination of an address: this machine for the test domain, the first host of the lookup, or "smtp." before the domain |
| SendMany.LastLookup | server/utils/send/send.go:98-106 | the hosts of a domain are those of the last lookup that named any |
| SendMany.LastError | server/utils/send/send.go:107-109 | the lookup error of a destination is that of the last lookup that led to it and failed |
| SendMany.EveryHostTried | server/utils/send/send.go:144-169 | a recorded failure: every host the last successful lookup named was tried and none took the message, or the last one tried refused it with a 5xx |
| SendMany.SameOutcome | server/utils/send/send.go:120-171 | one message, the same lookups and networks: in every order of the goroutines the same attempts, the same failures, the same recipients reported as often |
| SendMany.NilIffAllTook | server/utils/send/send.go:182-185 | nil exactly when, of each destination of a recipient with one '@', some host took the message |
| SendMany.ErrMapFixedIff | server/utils/send/send.go:173-181 | every order of the goroutines gives the same errors by domain exactly when no domain failed in two ways |
| SendMany.TwoFailures | server/utils/send/send.go:84-118 | a message, lookups and networks for which doSend records two different failures of one domain |
| SendMany.ErrMapEmptyIff | server/utils/send/send.go:173-185 | there is an error to classify exactly when a recipient is reported |
| Submission.AnswerIff | server/listen/smtp_server/audit_persistence.go:42-59 | from what the mail hosts answer to what the client is told: success iff all took the message; where no domain fails in two ways, 550 iff all failures are permanent |
| Submission.ResultSays | server/utils/send/send.go:173-185 | the error names every reported recipient, and every error by domain is passed on |
| Submission.RecordIsTrue | server/listen/smtp_server/audit_persistence.go:30-59 | a committed Sent or a positive answer only for a message the hosts of every destination took once, Fail or a later negative answer only for one that some destination did not take |
| Incoming.IncomingAccounts | server/listen/smtp_server/audit_persistence.go:179-203 | the local accounts of the envelope, or of the headers when there is no envelope |
| Incoming.AccountIs | server/dto/parsemail/email.go:39-46 | the account is what stands before the first "@", the domain what stands between it and the next |
| Incoming.ResolveIncomingUsers | server/listen/smtp_server/audit_persistence.go:140-177 | the addressed users once each, else dropped when the checks of the spam level failed, else the administrators, never nobody; and each error |
| Incoming.AuditIsReceive | server/listen/smtp_server/audit_persistence.go:114-138 | the audited insert without failures is the store's receive step |
| Incoming.ReceivedOnce | server/listen/smtp_server/audit_persistence.go:122-131 | the store stays sound and each resolved user, nobody else, gets one link |
| Search.MatchesEmailCriteria | server/services/list/imap_search.go:273-332 | dates by calendar day, sizes, headers, body and text |
| Search.FilterByUIDSets | server/services/list/imap_search.go:151-162 | keeps, in order, what lies in some set |
| Search.FilterBySeqNumSets | server/services/list/imap_search.go:165-176 | the same by sequence number |
| Search.FilterByFlags | server/services/list/imap_search.go:179-207 | keeps what has all flags and none of the others |
| Search.FilterWithEmailData | server/services/list/imap_search.go:229-270 | keeps what has an email that matches |
| Search.ApplyNotCriteria | server/services/list/imap_search.go:412-431 | keeps what does not satisfy the criteria |
| Search.ApplyOrCriteria | server/services/list/imap_search.go:434-475 | keeps what satisfies a side of some pair |
| Search.SearchEmails | server/services/list/imap_search.go:63-116 | for criteria of any nesting: exactly the listed messages that satisfy a pointwise predicate, in order, and the email of each meets everything that is asked of it |
| Search.MissingEmailIff | server/services/list/imap_search.go:138-148 | a message without an email passes exactly when nothing is asked of the email |
| Search.DatesAreDays | server/services/list/imap_search.go:335-337 | a date stands for midnight in its own zone |
| Search.DateFinds | server/services/list/imap_search.go:275-296 | SINCE and BEFORE ask for the date of arrival, SENTSINCE and SENTBEFORE for that of the message |
| Search.SizeFinds | server/services/list/imap_search.go:299-308 | LARGER and SMALLER are strict |
| Search.HeaderFinds | server/services/list/imap_search.go:340-364 | HEADER: a field of that name includes the text, both in lower case |
| Search.BodyFinds | server/services/list/imap_search.go:367-381 | BODY: the plain text or the HTML includes it |
| Search.TextFinds | server/services/list/imap_search.go:384-409 | TEXT is BODY or HEADER in five fields |
| Search.FlagFinds | server/services/list/imap_search.go:210-226 | the read mark, the status 3, 4 and 5, and no other flag |
| Search.SetFinds | server/services/list/imap_search.go:151-176 | a set finds the messages whose number is in it, up to 32 bits |
| Search.TextKeyFinds | server/services/list/imap_search.go:310-329 | HEADER, BODY and TEXT in a search |
| Search.AnswerInOrder | server/services/list/imap_search.go:466-474 | the answer keeps the order of the listing |
| Search.ListingIsSearchable | server/services/list/list.go:135-185 | a listing has unique, increasing UIDs |
| Search.SearchIsAnd | server/services/list/imap_search.go:83-113 | with one set of a kind and one OR per node the predicate is the "and" of section 6.4.4 of RFC 3501 |
| Search.ShapeIff | server/services/list/imap_search.go:154-174 | SearchEmails answers all criteria of a shape as RFC 3501 asks, in every mailbox, exactly when the shape has at most one set of each kind and one OR at the node |
| Search.WrongAnswer | server/services/list/imap_search.go:445-464 | for every larger shape, a mailbox and criteria that are answered with a message one of their keys excludes |
| Search.OrIsNotBothNot | server/services/list/imap_search.go:412-475 | OR is the NOT of both NOTs |
| Search.StatusFlagIff | server/services/list/imap_search.go:210-226 | a flag search sees the links' status exactly outside the flag's own mailbox |
| Listing.NumbersAreDense | server/services/list/list.go:135-185 | exactly the user's links with the status of the mailbox are listed, with their emails and read marks; numbers are 1 to n in the order of UIDs, and n is the MESSAGES count |
| Listing.Answer | server/services/list/list.go:293-308 | one answer per email, with the number of the last row |
| Listing.FetchOne | server/services/list/list.go:246-308 | what one number fetches |
| Listing.FetchRange | server/services/list/list.go:255-266 | what "a:b" and "a:*" fetch: the stretch of the numbered messages |
| Listing.FetchList | server/services/list/list.go:255-308 | what a list of numbers fetches: the emails of exactly those messages |
| Listing.FetchAgreesIff | server/services/list/list.go:246-308 | fetch and listing number alike exactly when no message of the mailbox is filed in a group |
| Listing.LastByEmailIff | server/services/list/list.go:293-306 | rows are lost from an answer exactly when two of them are one email |
| Listing.FetchAllIff | server/services/list/list.go:246-308 | fetching the whole mailbox agrees with the listing for every message exactly when none is filed in a group and no email is linked twice |
| Store.MailStore.DelEmail | server/services/del_email/del_email.go:15-61 | all deletions in one transaction, or none |
| Store.MailStore.DelByUID | server/services/del_email/del_email.go:63-101 | the loop with its early exits and failing statements |
| Store.MailStore.Copy | server/listen/imap_server/session_copy.go:68-126 | a new link per message and the new keys in order |
| Store.MailStore.ForwardToLocalUser | server/services/rule/rule.go:122-155 | at most one link; forwarding twice is forwarding once |
| Store.MailStore.MoveMailToGroup | server/services/group/group.go:123-138 | the user's links move, and whether any did |
| Store.MailStore.MoveToDefaultBox | server/services/group/group.go:318-363 | status and group of the user's links; the trash is a soft delete |
| Store.ForcedDeleteExact | server/services/del_email/del_email.go:35-61 | forced deletion removes the user's links and exactly the emails left without any |
| Store.ForcedDeleteIs | server/services/del_email/del_email.go:35-61 | row by row: a link goes with its user and email, an email with its last link |
| Store.DeleteByUidExact | server/services/del_email/del_email.go:63-101 | so does deletion by UID, for the accepted keys |
| Store.AcceptedAllIff | server/services/del_email/del_email.go:69-72 | all keys are accepted exactly when they are different links of the user |
| Store.StepKeepsInv | server/services/del_email/del_email.go:35-101 | each operation keeps links to existing emails and a link to each email |
| Store.RunKeepsInv | server/services/rule/rule.go:65-155 | so does every run |
| Store.MovesConserveLinks | server/services/rule/rule.go:166-223 | moves, reads and soft deletes conserve the links with their users and emails |
| Store.MoveIs | server/services/group/group.go:123-363 | row by row, with the numbers of the statuses: only the user's own links to the moved emails change, and how |
| Store.MoveTypes | server/services/rule/rule.go:166-192 | of the emails only a rule's move to INBOX or Sent changes one, in its type |
| Store.CopiesAre | server/listen/imap_server/session_copy.go:68-126 | copies keep email, read mark and the status given, in order; no other row changes |
| Store.ReceivedAs | server/listen/smtp_server/audit_persistence.go:114-131 | each receiver gets one unread link in no group, in order |
| Store.ForwardIs | server/services/rule/rule.go:122-155 | forwarding adds one unread link, unless the user has one |
| Store.TrashIsSoftDelete | server/services/group/group.go:318-363 | the trash one by one is one soft deletion |
| Store.LinkAloneIff | server/services/del_email/del_email.go:80-97 | removing a link alone is harmless exactly when it is not the last |
| Store.FaultyDeleteIff | server/services/del_email/del_email.go:63-101 | with failing statements the invariant holds exactly when no last link goes without its email |
| Store.OrphanStays | server/services/del_email/del_email.go:63-101 | an orphan is out of reach of later deletions by UID |
| Store.NoFaultsNoDifference | server/services/del_email/del_email.go:63-101 | without failures the loop is the plain deletion |
| Groups.LayerNameIsPath | server/services/group/group.go:174-184 | the recursion over parents terminates and joins the names from the root |
| Groups.GetAllChildId | server/services/group/group.go:103-115 | exactly the proper descendants, each once |
| Groups.GroupService.CreateGroup | server/services/group/group.go:26-40 | a new row with its path, or the existing group |
| Groups.GroupService.Rename | server/services/group/group.go:42-54 | name and path of one row; empty values are not written |
| Groups.GroupService.DelGroup | server/services/group/group.go:70-97 | the subtree's rows go and its links return to the default box, statement by statement |
| Groups.CreatedIs | server/services/group/group.go:26-40 | creating adds one row with the next key and its path in characters, unless the user has a group of that name |
| Groups.RenamedIs | server/services/group/group.go:42-54 | renaming writes name and path of one row, each unless it is empty |
| Groups.DeletedIs | server/services/group/group.go:70-115 | deleting removes exactly the user's own groups at and below the root |
| Groups.CreateForestIff | server/services/group/group.go:26-40 | creating keeps the forest exactly when the parent is 0 or a group of the user |
| Groups.SelfParentPossible | server/services/group/group.go:26-40 | a group can be made its own parent |
| Groups.RenameForest | server/services/group/group.go:42-54 | renaming keeps the forest |
| Groups.DeleteForest | server/services/group/group.go:70-97 | deleting keeps the forest |
| Groups.DeleteExact | server/services/group/group.go:70-97 | an owned group's deletion removes the group and its descendants and nothing else |
| Groups.NothingDangles | server/services/group/group.go:70-97 | afterwards no group and no link refers to what was removed, and no link is lost |
| Groups.HalfDeletionIff | server/services/group/group.go:82-96 | a failing second statement leaves dangling links exactly when the subtree held some |
| Groups.CreatePaths | server/services/group/group.go:26-40 | creating keeps every cached path right |
| Groups.DeletePaths | server/services/group/group.go:70-97 | deleting keeps every cached path right |
| Groups.RenamePathsIff | server/services/group/group.go:42-54 | renaming keeps every cached path right exactly when no other group's path would have to change |
| Groups.RunsKeepForest | server/services/group/group.go:26-115 | a forest in every state of every run |
| Groups.RunsKeepPaths | server/services/group/group.go:26-54 | cached paths are right in every run that renames only groups without children |
| Idle.UsersAt | server/listen/imap_server/session_idle.go:25-56 | a user has an entry exactly when a command of the user runs, and it is never empty |
| Idle.RegisterLive | server/listen/imap_server/session_idle.go:29-40 | registering a new log id adds exactly that command |
| Idle.CleanLive | server/listen/imap_server/session_idle.go:42-53 | a cleanup removes exactly its own command, and the entry with the last one |
| Idle.SurvivesIff | server/listen/imap_server/session_idle.go:25-56 | a second command outlives the first one's cleanup exactly when their log ids differ |
| Idle.Registry.Register | server/listen/imap_server/session_idle.go:26-40 | the new contents, the object held on to, and validity for a fresh log id |
| Idle.Registry.Cleanup | server/listen/imap_server/session_idle.go:42-53 | the section on the object held on to, current or not |
| Idle.Registry.Notice | server/listen/imap_server/session_idle.go:58-78 | the snapshot lists each registered connection of the user once |
| Idle.Run | server/listen/imap_server/session_idle.go:25-83 | every interleaving in which no command begins under a running log id: between sections the registry holds exactly the running commands, each in the object stored for its user |
| Idle.RunWithReuse | server/listen/imap_server/session_idle.go:25-56 | the converse over runs: after a command began under a running log id of its user, the first of the two cleanups leaves the other without a registration, and everyone else with theirs |
| Idle.ReusedLogId | server/listen/imap_server/session_idle.go:25-56 | a reused log id can remove the entry of a third running command |

## Left out

- The web send path (`server/controllers/email/send.go:197-256`), which inserts the email before its link.
- Relay mode (`tryRelay` in `server/utils/send/relay.go`) and SMTP AUTH: the modelled sends pass no credentials.
- DSN rewriting and pragma parsing (`server/db/retry.go:86-174`): they rest on the URL parser's escaping rules.
- The GBK, GB18030 and `CharsetReader` conversions (`server/dto/parsemail/encodedword.go:331-353`): library tables.
- `WordDecoder.Decode` for a single word (`server/dto/parsemail/encodedword.go:198-226`): it adds no new case.
- UIDNEXT, `getEmailListByUidList` and the totals of later pages: they use other row filters than the listing.
- User-made mailboxes in listings and searches (`server/services/list/list.go:168-180`): only the default boxes.
- Failing reads in SEARCH (`server/services/list/imap_search.go:245-248`): all reads of one search succeed and see one
  state of the database.
- Parsing of addresses, rules, MIME and attachments; sanitising; SPF, DKIM and the plugin hooks.
- The forward of a rule to other servers (`server/services/rule/rule.go:94-120`): it ends in `doSend`.
- Retries of the wrapper around `DelEmail`; its transaction is modelled as all or nothing.
- The writes to notified connections after the snapshot (`server/listen/imap_server/session_idle.go:79-81`).
- SmtpSession.Dial: does not model timeouts and deadlines, because they only decide which outcome a step has.
- Audit.RecordSucceedsIff: counts matched rows; a database that counts changed rows only is not modelled.
- Search.StatusFlagIff: is about the default mailboxes, because a user-made mailbox has no status of its own.
