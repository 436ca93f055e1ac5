# Snail mail server: a verified model

Snail is a mail server. This project models, in Dafny, the parts of it whose
correctness spans many steps, and proves what they promise on every input and
every run. Sockets, DNS answers, TLS handshakes, hashes, clocks and the disk's
timing are parameters, so each theorem holds whatever they do.

| component | files |
|---|---|
| SPF evaluation on an arbitrary, possibly cyclic DNS | `Networks`, `Spf`, `SpfTheorems`, `SpfEvaluator` |
| DATA framing: stuffing, chunked reading, collecting | `Octets`, `Framing`, `FramingTheorems` |
| DKIM canonical forms, header selection, what a hop changes | `DkimBody`, `Selection`, `DkimHeaders`, `DkimHop` |
| Dates in trace fields | `Calendar` |
| Outbound spool: records, files, crashes | `Mailboxes`, `Decimal`, `ControlRecord`, `Spool`, `SpoolCrash` |
| Relay worker and bounces | `FanOut`, `BounceStorm`, `Worker` |
| Relay client and route selection | `RelayClient`, `RelayRoute` |
| Login throttle and greylist | `Throttle`, `Greylist` |
| SMTP and submission sessions | `Session` |
| Audit hash chain | `Audit` |

Code that changes state is a class or a method with loops, proved against a
specification function; the theorems are lemmas about those functions. Code that
only computes is a function.

## Main results

- **SPF.** Evaluation ends on every DNS graph after at most 111 resolver calls. It
  answers `none` exactly if the domain is empty or has no policy. Its answer can be
  read off the network alone: what the policies mean if reading them costs at most ten
  lookups and two void lookups, and `permerror` otherwise. Raising the limits changes no
  other answer.
- **Framing.** For every byte string the receiver stops exactly behind the payload, or
  at a cap; exactly which, and what arrives, is stated. Message and one CRLF arrive if
  and only if there is no bare LF and both caps are met, and chunking makes no
  difference.
- **DKIM.** A hop that frames a message and stamps it with trace fields keeps the
  canonical body and all fields below if and only if the message does not begin with
  CRLF. It then keeps the signed-header bytes if and only if `h=` names none of the new
  fields more often than the message already had it.
- **Spool.** In every reachable state, with crashes and file errors at any point, an
  entry's files are present without marker if and only if its enqueue completed and
  neither its bounce nor its removal began. The recovery `open` runs after any crash is
  a legal run that leaves no marker and every unremoved message whole.
- **Worker.** Every act spends from a potential, so n fresh entries with a sender and
  m without cost at most 10n + 5m relay attempts for all server behaviours, and the
  queue drains. What is relayed is what was accepted, byte for byte.
- **Relay client.** Against every server, no envelope command and no message byte is
  in the clear under a strict policy or, under an opportunistic one, once STARTTLS was
  advertised.
  `Delivered` means exactly that the whole transaction was accepted.
- **Sessions.** A taken envelope, and every reply, can be read off the history of
  commands and replies alone.
- **Throttle, greylist.** The shared throttle map answers as if each address had its own
  automaton, and so does the greylist for each key while its table never fills.
- **Audit.** Appends and reopens verify; equal count and last hash mean equal records.

## Where code and documentation differ

- `Audit.TornTip`, `Audit.TornTail`: the sink's comment says that a torn last line does
  not poison the recovered tip. That holds if and only if the torn part has no tab.
  And whatever was torn, the next append continues that line, so that the file fails
  verification exactly if anything was torn.
- `DkimHop.StampKeepsExactly`, `DkimHop.StampLosesExample`: prepending a trace header is
  said to preserve every other byte, and does. But a message that begins with an empty
  line is accepted, and with a trace line on top that empty line ends the header
  section: all its fields, a signature included, become body.
- `Mailboxes.DisplayRoundTrip`, `Mailboxes.ParsedReadsBack`: an accepted address can
  parse to a mailbox whose own text parses to another mailbox or to none: exactly if
  the text behind its source route starts with `@` or white space.
- `ControlRecord.RecordRoundTrip`: such a mailbox does not survive the spool's record.
- `FramingTheorems.ArrivalIsMessage`: a message with a bare LF arrives changed.

## Model

| member | source | states |
|---|---|---|
| Spf.CheckHost | crates/network/src/spf/eval.rs:101-150 | terminates on every DNS graph by the lookups left; counters only grow and pass a limit by at most one; an exceeded limit surfaces as `permerror`; `none` exactly if the domain has no policy |
| Spf.Redirect | crates/network/src/spf/eval.rs:133-146 | a redirect never answers `none`, and keeps the budget account |
| Spf.Directives | crates/network/src/spf/eval.rs:124-130 | a scan that exceeds a limit decides `permerror`; the calls it makes are paid for by lookups |
| Spf.Matches | crates/network/src/spf/eval.rs:154-175 | a term's error is always `permerror`, and a term without error stayed within both limits |
| Spf.IncludeMatch | crates/network/src/spf/eval.rs:231-248 | an include that errs errs with `permerror`, otherwise the limits hold |
| SpfTheorems.BudgetRefinement | crates/network/src/spf/eval.rs:53-87 | an answer other than `permerror` is the same, counters included, under all larger limits |
| SpfTheorems.CheckHostRefines | crates/network/src/spf/eval.rs:101-150 | the same for every nested evaluation, from any meter within the limits |
| SpfTheorems.EvaluationCost | crates/network/src/spf/eval.rs:63-87 | at most 11 counted lookups, 3 void lookups and 111 resolver calls; the exact condition for `none` |
| SpfTheorems.AnswerIsMeaning | crates/network/src/spf/eval.rs:63-150 | read off the network alone: if reading the policies costs at most ten lookups and two void lookups, the answer is what they mean and the counters end at that cost; otherwise `permerror` |
| SpfTheorems.DomainCharged | crates/network/src/spf/eval.rs:101-150 | for every nested evaluation, from any counters and under any limits: the cost is charged in full if it fits, and otherwise a limit is exceeded |
| SpfTheorems.TermCharged | crates/network/src/spf/eval.rs:154-351 | a term costs one lookup if its kind asks for one, and one void lookup if the answer it asks for is empty |
| SpfTheorems.QualifierDecides | crates/network/src/spf/eval.rs:124-130 | within the limits the first matching directive answers pass, fail, softfail or neutral exactly as its qualifier is `+`, `-`, `~` or `?` |
| SpfTheorems.AllDecides | crates/network/src/spf/eval.rs:374-381 | a lone `all` does so under any limits |
| SpfTheorems.PolicyExactly | crates/network/src/spf/eval.rs:103-122 | no policy exactly without an answer or a text with the version token; a record exactly if one text has it and parses to that record |
| SpfTheorems.IdentityExactly | crates/network/src/spf/eval.rs:69-76 | the identity is `local@domain` cut at the last `@` if neither part is empty, else the postmaster of the HELO name |
| Networks.CidrIsBits | crates/network/src/spf/eval.rs:395-416 | an address is in a network exactly if all bits but the lowest width minus prefix agree; prefix 0 holds all, one beyond the width none |
| SpfTheorems.CheckHostMeaning | crates/network/src/spf/eval.rs:101-150 | the same for every nested evaluation |
| SpfTheorems.MatchesMeaning | crates/network/src/spf/eval.rs:154-297 | each mechanism matches by what the network says about its target, nothing else |
| SpfTheorems.LoopIsPermError | crates/network/src/spf/eval.rs:101-150 | policies that defer to each other for ever give `permerror` under any limits |
| SpfEvaluator.Evaluator.CheckHost | crates/network/src/spf/eval.rs:101-150 | the mutating evaluator computes the specified verdict and counters |
| SpfEvaluator.Evaluator.Matches | crates/network/src/spf/eval.rs:154-175 | likewise for one mechanism |
| SpfEvaluator.Evaluator.AMatch | crates/network/src/spf/eval.rs:177-198 | likewise for `a` |
| SpfEvaluator.Evaluator.MxMatch | crates/network/src/spf/eval.rs:200-229 | likewise for `mx`, with its loop over hosts |
| SpfEvaluator.Evaluator.IncludeMatch | crates/network/src/spf/eval.rs:231-248 | likewise for `include` |
| SpfEvaluator.Evaluator.ExistsMatch | crates/network/src/spf/eval.rs:250-266 | likewise for `exists` |
| SpfEvaluator.Evaluator.PtrMatch | crates/network/src/spf/eval.rs:268-297 | likewise for `ptr`, with its loop over names |
| SpfEvaluator.Evaluator.ChargeLookup | crates/network/src/spf/eval.rs:334-341 | counts one lookup, refused beyond the limit |
| SpfEvaluator.Evaluator.ChargeVoid | crates/network/src/spf/eval.rs:344-351 | counts one void lookup, refused beyond the limit |
| SpfEvaluator.Evaluate | crates/network/src/spf/eval.rs:63-87 | the whole evaluation answers as specified, in at most 111 resolver calls |
| Framing.SplitOnCrlf | crates/mail/src/transport/outbound.rs:58-72 | the two-index scan yields the segments between CRLFs |
| Framing.DotStuffBytes | crates/mail/src/transport/outbound.rs:43-54 | every segment framed, leading dots doubled, then the terminator |
| Framing.ReadLineCapped | services/snail_server/src/serve.rs:59-88 | line, verdict and unread rest are those of the flat stream, for every chunking |
| Framing.InboundCollector.PushLine | crates/mail/src/transport/inbound.rs:68-95 | the collector's step, and end of data exactly on a dot line framed by CRLF on both sides |
| Framing.ContentExactly | crates/mail/src/transport/inbound.rs:69-74 | the content of a line is what stands before its CRLF, else before a lone LF or CR, else the line; only CRLF counts as a full ending |
| Framing.ReceiveData | services/snail_server/src/serve.rs:481-500 | reading and collecting over a chunked connection is reception of the flat stream |
| FramingTheorems.OnePayload | crates/mail/src/transport/outbound.rs:43-72 | for every byte string the receiver stops exactly behind the payload, or a cap stopped it |
| FramingTheorems.ArrivesExactly | crates/mail/src/transport/inbound.rs:68-95 | for every byte string and all caps: the payload is received if and only if its wire lines and what they amount to fit the caps, and then exactly that is the body |
| FramingTheorems.RoundTrip | crates/mail/src/transport/outbound.rs:43-72 | without bare LF and within the caps: the message and one CRLF arrive, and nothing else is read |
| FramingTheorems.ReceiveMessage | services/snail_server/src/serve.rs:59-88 | the same through the connection, for every chunking |
| FramingTheorems.ReceiveKeepsSoundBody | crates/mail/src/transport/inbound.rs:68-95 | whatever arrives, the body respects the size cap and has no bare LF |
| FramingTheorems.RoundTripExactly | crates/mail/src/transport/outbound.rs:43-72 | for all messages and caps: message and one CRLF arrive if and only if there is no bare LF, the stuffed lines fit the line cap and the message fits the size cap |
| FramingTheorems.ArrivalIsMessage | crates/mail/src/transport/inbound.rs:68-95 | what a message amounts to on arrival is itself and one CRLF if and only if it has no bare LF |
| DkimBody.RelaxLineBytes | crates/network/src/dkim/canonicalize.rs:168-185 | the loop computes the relaxed line |
| DkimBody.RelaxLineShape | crates/network/src/dkim/canonicalize.rs:168-185 | a relaxed line has single inner spaces only, and the same octets other than space and tab in order with gaps in the same places |
| DkimBody.RelaxedByMarks | crates/network/src/dkim/canonicalize.rs:168-185 | there is only one octet string with that shape |
| DkimBody.SimpleBody | crates/network/src/dkim/canonicalize.rs:120-129 | the truncation loop equals the line-by-line simple form |
| DkimBody.RelaxedBody | crates/network/src/dkim/canonicalize.rs:134-165 | the two loops equal the line-by-line relaxed form |
| DkimBody.TrailingCrlfIgnored | crates/network/src/dkim/canonicalize.rs:111-165 | a CRLF at the end of the body changes neither canonical form |
| DkimBody.CanonicalIdempotent | crates/network/src/dkim/canonicalize.rs:111-165 | canonicalising twice is canonicalising once |
| DkimHeaders.RelaxValueBytes | crates/network/src/dkim/canonicalize.rs:89-106 | the loop computes the relaxed value |
| DkimHeaders.RelaxValueShape | crates/network/src/dkim/canonicalize.rs:89-106 | a relaxed value has the text of the value without CR and LF in order, gaps in the same places but none in front, single inner spaces, none at its ends, and is fixed |
| DkimHeaders.CanonicalizeHeader | crates/network/src/dkim/canonicalize.rs:56-85 | the canonical field, with its CRLF if asked for |
| DkimHeaders.RelaxedField | crates/network/src/dkim/canonicalize.rs:70-80 | a relaxed field is the trimmed name without capitals, otherwise unchanged, a colon and the relaxed value |
| DkimHeaders.KeysAreCaseless | crates/network/src/dkim/verify.rs:196-199 | names have one key exactly if of equal length and, place by place, one octet or one ASCII letter in its two cases |
| Selection.CandidatesExact | crates/network/src/dkim/verify.rs:193-209 | the fields of a name are counted from the bottom, the signature's own excluded |
| Selection.PicksAreDistinct | crates/network/src/dkim/verify.rs:192-209 | no field is signed twice |
| Selection.FindLast | crates/network/src/dkim/verify.rs:196-198 | the reverse search returns the last unconsumed field of the name, or none if there is none |
| Selection.SearchFindsPick | crates/network/src/dkim/verify.rs:193-209 | that field is the k-th from the bottom for the k-th mention |
| DkimHeaders.ComputeHashInput | crates/network/src/dkim/verify.rs:190-218 | each entry of `h=` in turn takes the lowest field in the message of that name in any case, not taken before and not the signature; their bytes in order, then the signature field without CRLF |
| DkimHeaders.BottomUpIsUnique | crates/network/src/dkim/verify.rs:190-218 | there is only one such selection |
| DkimHeaders.PrependedField | crates/network/src/dkim/verify.rs:190-218 | a prepended field leaves the hash input unchanged if and only if `h=` does not name it more often than it occurs, and otherwise lengthens it |
| DkimHeaders.PrependedFields | crates/network/src/dkim/verify.rs:190-218 | the same for any number of fields on top, name by name |
| DkimHeaders.CollectBlocks | crates/network/src/dkim/verify.rs:250-270 | the accumulator loop joins continuation lines to the field before |
| DkimHeaders.FoldingExactly | crates/network/src/dkim/verify.rs:250-270 | a line that starts with space or tab continues the block before it behind CRLF, any other starts one |
| DkimHeaders.FieldExactly | crates/network/src/dkim/verify.rs:270-280 | a block is a field exactly if it has a colon: the trimmed name before the first, the value behind it |
| DkimHeaders.PrependParses | crates/mail/src/snailmail.rs:196-202 | a prepended line is parsed as one more field on top |
| DkimHeaders.PrependedLine | crates/mail/src/snailmail.rs:196-202 | a prepended line of text becomes one field on top, with the same if-and-only-if |
| DkimHop.TrailingCrlfUnseen | crates/network/src/dkim/verify.rs:237-281 | one more CRLF at the end of a message leaves fields and canonical body as they were |
| DkimHop.SignatureSurvivesFraming | crates/network/src/dkim/verify.rs:118-126 | what is received after framing has the same fields and canonical body |
| DkimHop.StampedView | crates/mail/src/snailmail.rs:196-202 | any trace lines become fields on top in order, with all fields below and the canonical body as before; in front of a leading CRLF they are the only fields, and what follows it is body |
| DkimHop.StampKeepsExactly | crates/mail/src/snailmail.rs:196-202 | for a message with fields: the fields below and the canonical body stay if and only if no trace line is put in front of a leading CRLF |
| DkimHop.StampLosesExample | crates/mail/src/snailmail.rs:257-264 | an accepted message of ten octets whose only field becomes body under any trace line |
| DkimHop.SignatureSurvivesHop | services/snail_server/src/serve.rs:630-652 | sent, received and stamped with any trace lines: fields below and canonical body kept if and only if no trace line precedes a leading CRLF, and what is seen otherwise; where kept, the hash input is kept if and only if `h=` names none of the new fields more often than the message had it |
| Calendar.CivilStep | services/snail_server/src/received.rs:141-152 | for every integer day the date is valid and the next day's date is its Gregorian successor |
| Calendar.CivilIsCalendar | services/snail_server/src/received.rs:141-152 | the date is the calendar walked that many days from 1 January 1970, forwards or backwards |
| Calendar.CivilEpoch | services/snail_server/src/received.rs:141-152 | day 0 is 1 January 1970 |
| Calendar.WeekdayStep | services/snail_server/src/received.rs:116-137 | the weekday advances by one modulo seven |
| Calendar.MomentStep | services/snail_server/src/received.rs:116-137 | one second later the clock rolls over into the next minute, hour, date and weekday |
| Calendar.MomentEpoch | services/snail_server/src/received.rs:116-137 | second 0 is midnight on Thursday, 1 January 1970 |
| Throttle.AuthThrottle.CheckAt | crates/security/src/throttle.rs:78-84 | refused exactly while a lock lies in the future |
| Throttle.AuthThrottle.RecordFailureAt | crates/security/src/throttle.rs:87-113 | prunes, then applies one failure to the shared map |
| Throttle.AuthThrottle.RecordSuccess | crates/security/src/throttle.rs:69-71 | forgets the address |
| Throttle.NonInterference | crates/security/src/throttle.rs:69-126 | every answer about an address is that of its own automaton, for every interleaving and pruning |
| Throttle.ThrottleIsPerAddress | crates/security/src/throttle.rs:69-126 | the same from an empty throttle |
| Throttle.LockHolds | crates/security/src/throttle.rs:78-113 | a lock refuses every check until it lifts and no failure moves it |
| Throttle.BurstLocksAtThreshold | crates/security/src/throttle.rs:87-113 | failures less than a window apart lock exactly at the threshold, for one lockout from that failure |
| Throttle.LockoutOnTheMap | crates/security/src/throttle.rs:69-126 | on the shared map, among any other traffic, after any past that no longer counts (none, a success, an idle window, or a lock that has lapsed): allowed below the threshold; from the threshold failure refused at every check until one lockout later, and allowed from then on |
| Throttle.IdleRestartsCount | crates/security/src/throttle.rs:118-126 | an idle window or a lapsed lock restarts the count |
| Greylist.MaskIpIsNetwork | crates/security/src/greylist.rs:134-145 | masked addresses are equal exactly if one lies in the other's /24 or /64 |
| Greylist.KeyIsTriplet | crates/security/src/greylist.rs:84-88 | deliveries share a triplet exactly if of one network and equal in sender and recipient up to case |
| Greylist.Greylist.CheckAt | crates/security/src/greylist.rs:83-122 | one attempt on the shared table |
| Greylist.TableIsBounded | crates/security/src/greylist.rs:83-161 | the table never exceeds its capacity |
| Greylist.AllowIsEarned | crates/security/src/greylist.rs:83-161 | every Allow follows a Defer of the same triplet at least the delay earlier, or a full table |
| Greylist.RetryPasses | crates/security/src/greylist.rs:92-104 | a sender that was deferred and comes back after the delay, before a lifetime runs out, is let through in every run |
| Greylist.SecondAttempt | crates/security/src/greylist.rs:83-122 | exactly when a triplet's second attempt is let through: after the delay and before the pending lifetime ends, or later if the table is full |
| Greylist.AfterPassing | crates/security/src/greylist.rs:83-161 | once let through, a triplet's next attempt is let through exactly if the pass lifetime has not run out since, or if the table is full |
| Greylist.NewTriplet | crates/security/src/greylist.rs:106-122 | a new triplet is let through exactly if the table is full, and is then not remembered |
| Greylist.DecisionsArePerTriplet | crates/security/src/greylist.rs:83-161 | while the table never fills, decisions depend on the triplet's own attempts |
| Mailboxes.Parse | crates/mail/src/snailmail.rs:36-58 | both parts non-empty, no `@` in the domain, no longer than the text |
| Mailboxes.ParseExactly | crates/mail/src/snailmail.rs:36-58 | parsing gives a mailbox exactly if the trimmed text is its `local@domain`, behind a source route or not, both parts non-empty and no `@` in the domain |
| Mailboxes.TrimIs | crates/mail/src/snailmail.rs:36-58 | trimming takes the white space at both ends and nothing else |
| Mailboxes.DisplayRoundTrip | crates/mail/src/snailmail.rs:36-64 | display and parse are inverse if and only if the mailbox is well-formed |
| Mailboxes.ParsedReadsBack | crates/mail/src/snailmail.rs:36-64 | what is parsed from an address reads back if and only if the text behind its route starts neither with `@` nor with white space |
| Mailboxes.ParsedIsWellFormed | crates/mail/src/snailmail.rs:36-58 | in particular an address without source route parses to a well-formed mailbox |
| Mailboxes.RoutedMailboxIsLost | crates/mail/src/snailmail.rs:36-64 | every mailbox whose local part starts with `@` or white space comes from some routed address and does not read back |
| ControlRecord.BackoffDoubles | services/snail_server/src/spool.rs:260-265 | sixty seconds doubling up to an hour |
| ControlRecord.RenderCtrl | services/snail_server/src/spool.rs:308-323 | the loop writes one line per field and recipient |
| ControlRecord.ParseCtrl | services/snail_server/src/spool.rs:326-354 | the loop reads the record, failing on malformed or missing fields |
| ControlRecord.ParseRecordExactly | services/snail_server/src/spool.rs:326-354 | a text is a record exactly if no known key has a malformed value and none of created, next, attempts and rcpt is missing; it says the last of each, the last non-empty sender and all recipients in order |
| Decimal.ParseUnsignedExactly | services/snail_server/src/spool.rs:333-335 | digits, alone or behind one plus sign, parse to their value up to the maximum |
| Decimal.OnlyNumeralsParse | services/snail_server/src/spool.rs:333-335 | nothing else does |
| Text.LinesExactly | services/snail_server/src/spool.rs:330 | lines end at LF or CRLF; text left without one is a line as it stands |
| ControlRecord.RecordReads | services/snail_server/src/spool.rs:308-354 | a written record reads back as what each mailbox's text parses to, or not at all |
| ControlRecord.RecordRoundTrip | services/snail_server/src/spool.rs:308-354 | reading a written record gives back sender, recipients in order, attempts and whole seconds if and only if there is a recipient and every mailbox is well-formed and without LF |
| ControlRecord.DefersPreserve | services/snail_server/src/spool.rs:139-149 | any number of defers keeps envelope and creation time, and shows the last schedule |
| ControlRecord.RecordIsPlain | services/snail_server/src/spool.rs:326-354 | whatever text a record came from, its fields can be written as lines again |
| ControlRecord.RewrittenRecord | services/snail_server/src/spool.rs:139-149 | a rewritten record is unreadable, or has the attempts, time and kind of sender written |
| Spool.EnqueueAdds | services/snail_server/src/spool.rs:81-88 | a finished enqueue makes the entry visible with these contents and changes no other |
| Spool.DeferReplaces | services/snail_server/src/spool.rs:139-149 | a finished defer replaces the record and nothing else |
| Spool.DiscardRemoves | services/snail_server/src/spool.rs:155-159 | a finished removal takes exactly this entry out of the queue |
| Spool.BounceRemoves | services/snail_server/src/spool.rs:174-207 | a bounce, whole or resumed, moves both files and takes exactly this entry out of the queue |
| Spool.RecoverStep | services/snail_server/src/spool.rs:184-197 | recovering one marked entry removes its marker and leaves the queue |
| Spool.RecoveredRelocates | services/snail_server/src/spool.rs:184-207 | recovering any list of marked entries leaves both files of each in `bounced/` |
| Spool.OutboundSpool.WriteAtomic | services/snail_server/src/spool.rs:272-279 | a temporary file, then a rename |
| Spool.OutboundSpool.EnqueueMessage | services/snail_server/src/spool.rs:81-88 | the file operations of enqueue; the queue gains the entry with no attempts |
| Spool.OutboundSpool.DueNow | services/snail_server/src/spool.rs:96-121 | exactly the visible entries whose time has come, in id order |
| Spool.OutboundSpool.DeferEntry | services/snail_server/src/spool.rs:139-149 | fails exactly on a missing or malformed record, else rewrites it |
| Spool.OutboundSpool.RemoveEntry | services/snail_server/src/spool.rs:155-159 | the file operations of removal; the entry leaves the queue |
| Spool.OutboundSpool.BounceEntry | services/snail_server/src/spool.rs:174-179 | the file operations of a bounce; the entry leaves the queue |
| Spool.OutboundSpool.Relocate | services/snail_server/src/spool.rs:202-207 | both files moved, then the marker removed |
| Spool.OutboundSpool.Open | services/snail_server/src/spool.rs:61-73 | every marker is cleared, the marked entries' files are in `bounced/`, the queue is unchanged, and the disk is that of recovering each marker once |
| SpoolCrash.RunKeepsInv | services/snail_server/src/spool.rs:61-207 | the invariant of files, tasks and history holds along every run with crashes and file errors at any point |
| SpoolCrash.CrashSafety | services/snail_server/src/spool.rs:61-207 | an unremoved entry without marker has both files together, in the main directory or in `bounced/`, with its contents |
| SpoolCrash.RecoveryIsRun | services/snail_server/src/spool.rs:184-207 | what recovery does to the disk is a legal run of single file operations, for any order of the markers |
| SpoolCrash.OpenedIsWhole | services/snail_server/src/spool.rs:61-73 | after any history ending in a crash, recovery leads back to service: no marker is left and every unremoved entry is whole |
| SpoolCrash.Restart | services/snail_server/src/spool.rs:61-73 | the same for the recovery loop that `open` runs |
| SpoolCrash.DueExactly | services/snail_server/src/spool.rs:96-121 | both files are present without marker if and only if enqueued and neither bounce nor removal began, and they hold what was enqueued |
| SpoolCrash.DueInRun | services/snail_server/src/spool.rs:96-121 | in every reachable state `due_now` returns committed, unbounced, unremoved entries only, and of the storable ones exactly those whose time has come, as enqueued |
| FanOut.GroupByDomain | services/snail_server/src/server.rs:439-446 | one group per lower-cased domain, its recipients in order |
| FanOut.RelayEntries | services/snail_server/src/server.rs:439-457 | entries are single-domain with distinct domains, same sender and bytes, and conserve every recipient occurrence |
| FanOut.AcceptInbound | services/snail_server/src/server.rs:391-420 | local list and entries together carry each recipient occurrence once; nothing is spooled if forbidden |
| FanOut.PartitionConserves | crates/mail/src/transport/mta.rs:68-90 | routing splits the recipients without loss or duplication |
| FanOut.LocalExactly | crates/mail/src/transport/mta.rs:48-59 | local means that a hosted name without capitals is the domain up to case |
| FanOut.DomainsAreCaseless | services/snail_server/src/server.rs:441-446 | recipients are grouped together exactly if their domains are equal up to case |
| FanOut.DsnHasOneEntry | services/snail_server/src/dsn.rs:111 | a notification makes at most one entry, with the null sender |
| BounceStorm.ActSpends | services/snail_server/src/worker.rs:39-82 | every act of the worker lowers the potential |
| BounceStorm.RunSpends | services/snail_server/src/worker.rs:28-126 | in every run the number of acts is at most the potential spent |
| BounceStorm.NoBounceStorm | services/snail_server/src/worker.rs:28-126 | n fresh entries with a sender and m without cost at most 10n + 5m attempts |
| BounceStorm.PerEntryBounds | services/snail_server/src/worker.rs:18-126 | each entry is relayed at most five times and causes at most one notification, none with a null sender |
| Worker.ActIsAllowed | services/snail_server/src/worker.rs:39-126 | what the worker does with an entry, for any record text and outcome, is an allowed act |
| Worker.ActIsExact | services/snail_server/src/worker.rs:60-80 | a postponed entry with fewer than five attempts keeps its envelope with one more attempt and a doubled delay; a failed one, or the fifth attempt, notifies the sender with a null-sender message |
| Worker.RelayWorker.EnqueueAll | services/snail_server/src/server.rs:447-456 | one entry per message, each under its own id, with the message's own bytes in its file and no older file changed |
| Worker.RelayWorker.Accept | services/snail_server/src/server.rs:391-420 | forbidden: the spool is untouched; permitted: it gains exactly the entries of the fan-out, local delivery and entries carry each recipient occurrence once, and the entries stand on disk as they are if and only if all of them can be read back, as those of a storable envelope can; every new message file holds the message's bytes and no older one changes |
| Worker.SpooledExactly | services/snail_server/src/server.rs:447-456 | messages written one by one are all queued as they are, and nothing else changed, if and only if every envelope reads back |
| Worker.RelayWorker.BounceAndNotify | services/snail_server/src/worker.rs:99-126 | the notification is queued with its text, then the entry moved, its message file kept in `bounced/` as it was |
| Worker.RelayWorker.Handle | services/snail_server/src/worker.rs:39-82 | one due entry: the queue changes by exactly its act, and the message files by exactly what the outcome calls for |
| Worker.RelayWorker.ScanAfterPostponement | services/snail_server/src/worker.rs:64-76 | a postponed entry is not returned as due before its backoff has passed, less the truncated fraction of a second, and is returned once it has |
| Worker.RelayWorker.RelayDue | services/snail_server/src/worker.rs:28-90 | one pass handles exactly the due entries, each as its outcome demands, as an allowed run |
| Worker.RelayWorker.Run | services/snail_server/src/worker.rs:130-143 | any number of passes makes one attempt per due entry and no more than the potential it spends, which also bounds the passes that find work, and never writes to a message file |
| Worker.RelayWorker.Drain | services/snail_server/src/worker.rs:130-143 | with the clock moving past the retry times the queue empties, whatever the servers answer |
| RelayClient.RelayTo | services/snail_server/src/outbound.rs:223-345 | against every server the conversation follows the script and the result says where it stopped, by reply code; if the policy allows TLS and an accepted EHLO reply offers STARTTLS, STARTTLS is next; under a strict policy, or an opportunistic one after that offer, nothing of the mail is in the clear |
| RelayClient.OfferIsFound | services/snail_server/src/outbound.rs:183-189 | STARTTLS counts as offered exactly if it is, in any case, the first word of some line |
| RelayClient.Say | services/snail_server/src/outbound.rs:195-203 | sending the next thing of the script extends the conversation by one exchange, which explains any stop there |
| RelayClient.Upgrade | services/snail_server/src/outbound.rs:276-314 | refused, pipelined or failed STARTTLS defers; otherwise all goes on over TLS |
| RelayClient.Transact | services/snail_server/src/outbound.rs:318-345 | envelope and message in script order, each only after a positive reply |
| RelayClient.DeliveredExactly | services/snail_server/src/outbound.rs:318-345 | Delivered if and only if MAIL, every RCPT in order and the message got 2xx and DATA got 354 |
| RelayRoute.WildcardIsOneLabel | crates/network/src/mta_sts/policy.rs:105-126 | a wildcard pattern covers exactly the hosts one label below its suffix without final dots; with only dots for a suffix it is the name `*` |
| RelayRoute.AllowsExactly | crates/network/src/mta_sts/policy.rs:105-126 | a host is allowed exactly if, in lower case and without final dots, it is not empty and some pattern stands for it |
| RelayRoute.SortIsStable | services/snail_server/src/outbound.rs:407-417 | records of each preference are kept, in their order |
| RelayRoute.ExchangesExactly | services/snail_server/src/outbound.rs:398-427 | the exchanges are those of the validated answer under DANE, else of the plain one, else the domain itself; sorted, and in order within a preference |
| RelayRoute.PolicyExactly | services/snail_server/src/outbound.rs:466-490 | how an exchange is spoken to: DANE with TLSA records first, then an enforced MTA-STS policy that lists it, else as configured |
| RelayRoute.PlanIsComplete | services/snail_server/src/outbound.rs:462-501 | the plan holds exactly the addresses of the usable exchanges under their policy |
| RelayRoute.PlanIsOrdered | services/snail_server/src/outbound.rs:407-462 | the plan is in preference order |
| RelayRoute.EnforcedContacts | services/snail_server/src/outbound.rs:538-553 | with MTA-STS on, an enforcing policy and no validated MX answer under DANE, every contact is listed by the policy, strict, and encrypted |
| RelayRoute.DaneContacts | services/snail_server/src/outbound.rs:476-485 | under DANE a host with usable TLSA records gets the mail over TLS only |
| RelayRoute.TryAddresses | services/snail_server/src/outbound.rs:501-514 | the addresses in order, until a delivery or permanent refusal |
| RelayRoute.TryExchanges | services/snail_server/src/outbound.rs:457-527 | the nested loops carry out the plan from its start and stop with the first final result |
| RelayRoute.Relay | services/snail_server/src/outbound.rs:376-527 | error cases contact no one; otherwise preference order, authorised contacts only under enforcement, first final result wins, and without one every eligible address was tried and the report is that of the last exchange that could be |
| Session.SmtpSession.Handle | crates/mail/src/transport/smtp.rs:217-277 | state and reply for every command in every phase |
| Session.SmtpSession.TakeEnvelope | crates/mail/src/transport/smtp.rs:283-290 | takes sender and recipients and resets, or nothing without recipients |
| Session.HistoryStaysInSync | crates/access/src/msa.rs:41-79 | along every history the session state agrees with the ledger kept from events and replies |
| Session.LedgerTells | crates/access/src/msa.rs:41-79 | that ledger is the open MAIL FROM, the user of that moment and the RCPTs answered 250 since |
| Session.SubmissionHistory | crates/access/src/msa.rs:41-79 | an envelope that can be taken has these recipients, at least one and at most the limit, and for sender the mailbox that is, up to case, the user at its MAIL FROM |
| Session.RepliesExactly | crates/mail/src/transport/smtp.rs:217-277 | every reply, in every history, is the one that follows from user, open transaction, greeting, QUIT and DATA as history tells them |
| Session.OnlyOwnSender | crates/access/src/msa.rs:67-77 | MAIL FROM gets 250 only for the mailbox that is the user's name up to case; with a user, any other and the null path get 553 |
| Session.ToldIsHistory | crates/mail/src/transport/smtp.rs:217-290 | greeted if and only if a HELO or EHLO occurs; ended if and only if some QUIT has no reviving turn after it; awake if and only if some reviving turn has no QUIT after it; data if and only if a 354 was given since the open MAIL FROM |
| Session.DataMeansEnvelope | crates/mail/src/transport/smtp.rs:255-258 | after a 354 there is an envelope to take |
| Session.NoLoginNoEnvelope | crates/access/src/msa.rs:59-66 | without a successful login nothing can be taken |
| Session.MsaSession.AuthenticatePlain | crates/access/src/msa.rs:41-50 | extends the history by the login and its reply |
| Session.MsaSession.Handle | crates/access/src/msa.rs:59-79 | extends the history by the command and its reply, and the reply is the one the history calls for, at most 1000 recipients included |
| Session.MsaSession.TakeEnvelope | crates/mail/src/transport/smtp.rs:283-290 | what it returns was submitted as promised; after a 354 it returns an envelope |
| Audit.EncodeIsClean | crates/security/src/audit/audit_logger.rs:54-76 | an encoded event has no tab, LF or CR, whatever the user sent |
| Audit.EncodeReads | crates/security/src/audit/audit_logger.rs:54-76 | an encoded event decodes to that event, with separators in what users sent as spaces |
| Audit.Verify | crates/security/src/audit/sink.rs:122-143 | valid exactly if every line is linked to the one before, with the count; else the first line that is not |
| Audit.Tip | crates/security/src/audit/sink.rs:149-165 | the last hash and next number of a file |
| Audit.RecordsAreChained | crates/security/src/audit/sink.rs:95-109 | appended records are linked single lines whose tip is the last hash and the count |
| Audit.DurableAuditSink.constructor | crates/security/src/audit/sink.rs:67-88 | opening the file of a chain recovers that chain |
| Audit.DurableAuditSink.Append | crates/security/src/audit/sink.rs:95-109 | writes the next record behind whatever the file holds; on a chain it extends the chain by one record |
| Audit.Operate | crates/security/src/audit/sink.rs:67-143 | any appends with reopens anywhere: verification gives the exact count, and the tip is the last hash and next number |
| Audit.TamperEvident | crates/security/src/audit/sink.rs:122-179 | for an injective hash, linked chains of equal length and last hash are equal |
| Audit.ChainsTell | crates/security/src/audit/sink.rs:95-179 | they then record the same events at the same times |
| Audit.FilesAgree | crates/security/src/audit/sink.rs:122-165 | the same for any two files that verify |
| Audit.TornTip | crates/security/src/audit/sink.rs:146-165 | after a crash that leaves any start of a record the recovered tip is the chain's if and only if that start has no tab; else the torn record is taken for a whole one |
| Audit.TornTipExample | crates/security/src/audit/sink.rs:149-165 | a start of a first record, cut inside its time, whose partial time is taken for the last hash |
| Audit.TornTail | crates/security/src/audit/sink.rs:67-109 | whatever unfinished line a crash leaves, an append after reopening makes the file verify if and only if nothing was left |
| Audit.ReopenTorn | crates/security/src/audit/sink.rs:67-143 | the same for opening, appending and verifying as the sink does it |

## Left out

- SPF macro expansion and record text parsing: total functions that may fail, given as parameters.
- SPF temporary errors: the evaluator treats a failed lookup as an empty answer, so the resolver is a function.
- Addresses as bits: a CIDR match compares quotients by a power of two, which is what masking does.
- DKIM header names: trimmed and lower-cased as ASCII octets; their lossy UTF-8 decoding is not modelled.
- DkimHop.SignatureSurvivesHop: not for messages whose first octet is white space, which header parsing rejects; trace fields are one line each, as the server writes them.
- DKIM tags, keys, signatures and SHA-256: only the bytes that are hashed are modelled.
- Calendar: unbounded integers; 64-bit overflow at astronomic days is not modelled.
- ControlRecord.RecordRoundTrip: for attempts of 32 bits and times whose seconds fit 64 bits.
- ControlRecord, Worker: attempts and 64-bit seconds are checked against their width, arithmetic on clock readings does not overflow.
- Spool ids: natural numbers in file-name order, drawn fresh; how the name is built from clock, process and counter is not modelled.
- Spool files: a rename is atomic and a file creation all-or-nothing; fsync and torn writes are not modelled.
- `reap_bounced` and file ages: bounced files are kept.
- Worker.RelayWorker.Run: file operations succeed and no new mail is submitted during the run; a disk that refuses to move a bounced entry would leave it due.
- Local delivery: the mail store is not modelled, only which recipients are local.
- The order of relay entries among domains: any order, where the source goes by domain name.
- RelayClient.RelayTo: QUIT after the verdict is not recorded; reply lines arrive already parsed, a malformed one counts as a broken connection.
- RelayRoute.Relay: reasons and reply texts are reduced to codes, with 0 where there was no reply.
- TLS handshakes, certificates and DANE matching: an outcome that succeeds or fails.
- MTA-STS policy retrieval and caching: the policy is given.
- Session: parsing of command lines and of the AUTH response, and the password check, are inputs.
- STARTTLS in sessions: the connection starts a new session afterwards; only its reply code is modelled.
- A torn audit write that ends inside a multi-byte character: opening the file then fails, which is not modelled.
- Audit: the hash is a parameter assumed hexadecimal, and injective where stated; the sequence number stays within 64 bits.
- The in-memory audit ring, POP3, IMAP, web access, firewall lists, spam scoring, DMARC and telemetry: their invariants are simpler.
- Text of notifications and trace fields: only the envelope, the date and the fact of one field matter here.
