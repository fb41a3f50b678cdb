# Gmail–Trello sync checks, modelled in Dafny

The system reads messages from a Gmail inbox and checks that a Trello board
mirrors them. Each message has its subject taken from the headers and its
text body pulled from a tree of MIME parts. The body is then base64-decoded
(URL-safe alphabet) and UTF-8-decoded, ignoring malformed bytes.

Two API tests compare the messages with the board's cards:

- **Urgent test.** Every message whose body mentions "urgent" must have a
  card with the "Urgent" label. The card's title is the subject with one
  "Task:" prefix removed.
- **Merge test.** Every subject that arrived more than once must have one
  card whose description holds every body of that subject.

Both tests ignore system mails through a keyword denylist. Each test ends
in one of three verdicts: skipped, passed, or failed at its first violated
assertion.

This project models that core:

- the extraction functions of `GmailClient`;
- the base64 and UTF-8 decoding they rely on;
- the title normalization and the keyword denylist;
- the decision logic of both tests, run on snapshots of the inbox and the board that were already fetched.

Modules:

- `Wrappers`: `Option` and `Result`.
- `Bytes`: the byte type.
- `PyStr` models the Python string operations the source uses:
  - `str.isspace`, with its exact set of white-space code points;
  - `strip`;
  - `lower`, for ASCII letters;
  - `startswith`;
  - substring `in`.
- `Base64` models `base64.urlsafe_b64decode`:
  - the ASCII check;
  - the translation of `-` and `_`;
  - the non-strict state machine of `binascii.a2b_base64` as CPython 3.11 and later run it.

  It also holds a URL-safe encoder, which states the round trip.
- `Utf8`: `bytes.decode("utf-8", errors="ignore")`. Each well-formed
  sequence (table 3-7 of the Unicode Standard) becomes a character, and any
  other byte is dropped. It also holds an encoder, which states the round trip.
- `GmailClient` models the following, all as recursive functions over datatypes:
  - `extract_subject`;
  - `extract_body`, and inside it `walk_parts`.

  `walk_parts` is proved equal to "the first text candidate of the pre-order
  listing of the part tree".
- `TestSync`:
  - `normalize_subject_to_card_title`;
  - `SYSTEM_KEYWORDS` and the two ways the tests apply it;
  - the snapshot records;
  - the `matching_cards` lookup.
- `UrgentTest`: the urgent test.
  - Its loops are methods. The methods are proved against fold and
    first-failure functions.
  - Lemmas characterise each verdict: when it is skip, pass, or the first failure.
- `MergeTest`: the merge test.
  - The ordered `subject_groups` dictionary is a sequence of groups with
    distinct subjects. Its keys are proved to be the subjects in the order in
    which each first arrived, and `merge_required` is proved to keep that order,
    so the failure reported is pinned to the inbox.
  - `setdefault(...).append(...)` is modelled, and the grouping loop is
    proved against an independent reference: the bodies filed under each
    subject, in arrival order.
  - The checking loops are methods proved against first-failure functions.
  - Lemmas relate the verdict directly to the messages. The test is skipped
    exactly when no two kept messages share a subject. It passes exactly when
    at least one subject is filed more than once and every such subject passes
    against the board.

Title normalization is not idempotent: it removes only one "Task:" prefix,
so "Task: Task: X" becomes "Task: X", and a second normalization gives "X".

- `TestSync.NormalizeNotIdempotent` proves that example.
- `TestSync.NormalizeIdempotentIff` proves when normalizing twice does change the result.

## Model

| member | source | states |
|---|---|---|
| PyStr.IsSpace | tests/API/test_sync.py:22 | `str.isspace` on one character, as the exact set of white-space code points that `strip` removes; used by `PyStr.StripIsStripped` and `PyStr.StripPadded` |
| PyStr.Strip | tests/API/test_sync.py:22 | `str.strip()`; characterised by `PyStr.StripIsStripped`, `PyStr.StripPadded`, `PyStr.StripIdempotent` and `PyStr.StripOccurs` |
| PyStr.Lower | tests/API/test_sync.py:24 | `str.lower()` on ASCII letters; characterised by `PyStr.LowerOfLower`, `PyStr.LowerConcat` and `PyStr.NoUpperInLower` |
| PyStr.StartsWith | tests/API/test_sync.py:24 | `str.startswith`; used by `TestSync.NormalizeStripsPrefix` and `TestSync.NormalizeKeepsPlainTitle` |
| PyStr.Contains | tests/API/test_sync.py:75 | substring `in`; characterised by `PyStr.ContainsIff` in both directions, and by `PyStr.ContainsTransitive` and `PyStr.ContainsLower` |
| PyStr.StripIsStripped | tests/API/test_sync.py:22 | the result of `strip` neither begins nor ends with a white-space character |
| PyStr.StripPadded | tests/API/test_sync.py:22 | `strip` removes exactly the white space around a stripped text: `Strip(w1 + t + w2) == t` |
| PyStr.StripIdempotent | tests/API/test_sync.py:26 | stripping twice is stripping once |
| PyStr.StripOccurs | tests/API/test_sync.py:68 | the stripped text is a substring of the original |
| PyStr.ContainsIff | tests/API/test_sync.py:75 | `k in s` holds exactly when `k` occurs in `s` at some index (both directions) |
| PyStr.ContainsTransitive | tests/API/test_sync.py:72 | a substring of a substring is a substring |
| PyStr.CharContained | tests/API/test_sync.py:167 | each character of a string is a one-character substring of it |
| PyStr.MissingCharNotContained | tests/API/test_sync.py:72 | when `s` lacks one character of `k`, `k in s` is false |
| PyStr.ContainsLower | tests/API/test_sync.py:130 | lowering preserves the substring relation |
| PyStr.NoUpperInLower | tests/API/test_sync.py:72 | a key holding an upper-case letter never occurs in a lowered string |
| PyStr.LowerOfLower | tests/API/test_sync.py:130 | lowering a string without upper-case letters leaves it unchanged |
| PyStr.LowerConcat | tests/API/test_sync.py:24 | lowering distributes over concatenation |
| Base64.FromUrlSafeString | gmail/gmail_client.py:71 | the translation of `-` and `_` to `+` and `/`; `Base64.FromUrlSafeConcat` and `Base64.DecodeEncode` use it |
| Base64.SextetValue | gmail/gmail_client.py:71 | the alphabet table of `a2b_base64`: a value below 64 for an alphabet character, none otherwise; `Base64.DecodeSkipsForeign` states the effect of the none case |
| Base64.Feed | gmail/gmail_client.py:71 | one data character fed to the decoder: the quantum position advances modulo 4, pads reset, and a byte is emitted from the second character of a quantum on |
| Base64.UrlSafeB64Decode | gmail/gmail_client.py:71 | `base64.urlsafe_b64decode`: the ASCII check, then the scan from the start state; its properties are the `Base64` rows below |
| Base64.Scan | gmail/gmail_client.py:71 | the non-strict character loop of `binascii.a2b_base64`; characterised by `Base64.ScanDataOnly`, `Base64.DecodeSkipsForeign` and `Base64.DecodeEncode` |
| Base64.Finish | gmail/gmail_client.py:71 | the end of input is accepted exactly when no quantum is open |
| Base64.DecodeEncode | gmail/gmail_client.py:71 | decoding the URL-safe padded encoding of any bytes gives back those bytes |
| Base64.DecodeSkipsForeign | gmail/gmail_client.py:71 | inserting an ASCII character outside the alphabet anywhere leaves the decoding unchanged (non-strict mode) |
| Base64.NonAsciiRefused | gmail/gmail_client.py:71 | a string holding a non-ASCII character is refused before decoding |
| Base64.UnpaddedDecode | gmail/gmail_client.py:71 | unpadded data characters decode exactly when their count is a multiple of 4; one more is an excess-data error, and two or three more is a padding error |
| Base64.ScanDataOnly | gmail/gmail_client.py:71 | on data characters alone, decoding from any state succeeds exactly when the position reached, `(start + length) % 4`, is 0; position 1 is an excess-data error and 2 or 3 a padding error |
| Base64.DecodeHello | gmail/gmail_client.py:71 | "SGVsbG8=" decodes to the bytes of "Hello" |
| Base64.MissingPadRefused | gmail/gmail_client.py:71 | "SGVsbG8" is refused with a padding error |
| Utf8.NextScalar | gmail/gmail_client.py:72 | a decoded sequence takes 1 to 4 bytes and never more than remain |
| Utf8.DecodeIgnore | gmail/gmail_client.py:72 | decoding never yields more characters than bytes |
| Utf8.DecodeEncode | gmail/gmail_client.py:72 | decoding the UTF-8 encoding of any string gives back the string |
| Utf8.StrayByteIgnored | gmail/gmail_client.py:72 | a byte that cannot start a sequence, placed between two encoded strings, is dropped; nothing else is |
| Utf8.DecodeAscii | gmail/gmail_client.py:72 | ASCII bytes decode one-to-one into the characters of the same code |
| GmailClient.IsSubjectHeader | gmail/gmail_client.py:21 | a header whose lowered name is "subject"; `GmailClient.SubjectIsFirstMatch` and `GmailClient.NoSubjectIsEmpty` are stated with it |
| GmailClient.FirstSubject | gmail/gmail_client.py:20-23 | the loop over headers; characterised by `GmailClient.SubjectIsFirstMatch` and `GmailClient.NoSubjectIsEmpty` |
| GmailClient.ExtractSubject | gmail/gmail_client.py:18-23 | `extract_subject`; characterised by `GmailClient.SubjectIsFirstMatch`, `GmailClient.NoSubjectIsEmpty` and `GmailClient.ExtractSubjectFails` |
| GmailClient.SubjectIsFirstMatch | gmail/gmail_client.py:18-23 | the subject is the value of the first header whose lowered name is "subject" |
| GmailClient.NoSubjectIsEmpty | gmail/gmail_client.py:20-23 | without such a header the subject is "" |
| GmailClient.ExtractSubjectFails | gmail/gmail_client.py:19 | `extract_subject` fails exactly when the payload or its headers are missing, and a missing payload is reported first |
| GmailClient.HasData | gmail/gmail_client.py:39 | data is truthy: present and not empty, as tested at lines 39, 49, 59 and 67; `GmailClient.WalkParts` and `GmailClient.BodyData` state that found data is never empty |
| GmailClient.IsTextCandidate | gmail/gmail_client.py:49-52 | a part with data whose MIME type starts with "text/plain" or "text/html"; `GmailClient.WalkPartsIsPreOrderSearch` and `GmailClient.AttachmentSkipped` use it |
| GmailClient.WalkParts | gmail/gmail_client.py:42-62 | a found body data is never empty |
| GmailClient.WalkPartsIsPreOrderSearch | gmail/gmail_client.py:42-62 | `walk_parts` returns the data of the first text candidate in depth-first pre-order of the part tree |
| GmailClient.FirstCandidateIndex | gmail/gmail_client.py:43-53 | the pre-order search finds nothing exactly when no part is a candidate, and otherwise returns the data of the first candidate |
| GmailClient.FirstCandidateAppend | gmail/gmail_client.py:55-60 | searching a concatenation searches the first list, then falls through to the second |
| GmailClient.BodyData | gmail/gmail_client.py:32-64 | the data chosen for decoding is never empty |
| GmailClient.DecodeBody | gmail/gmail_client.py:71-72 | base64 then UTF-8 decoding of the chosen data; `GmailClient.ExtractBodyRoundTrip` and `GmailClient.ExtractBodyFailsOnlyInDecoding` state what it yields |
| GmailClient.ExtractBody | gmail/gmail_client.py:25-72 | `extract_body`; characterised by the `GmailClient` rows from `InlineDataWins` to `AttachmentSkipped` |
| GmailClient.InlineDataWins | gmail/gmail_client.py:35-40 | non-empty inline `body.data` alone is decoded, and `parts` is never consulted |
| GmailClient.MissingInlineUsesParts | gmail/gmail_client.py:39-64 | empty or absent inline data falls back to the first pre-order candidate of the parts |
| GmailClient.NoCandidateIsEmpty | gmail/gmail_client.py:32-68 | with no candidate anywhere, or no payload, the body is "" |
| GmailClient.ExtractBodyFailsOnlyInDecoding | gmail/gmail_client.py:64-72 | `extract_body` fails exactly when the chosen data does not base64-decode |
| GmailClient.ExtractBodyRoundTrip | gmail/gmail_client.py:64-72 | data holding the base64 of the UTF-8 of a text extracts to exactly that text |
| GmailClient.NestedHtmlExample | gmail/gmail_client.py:42-72 | a text/html part nested under a multipart part, with data "SGVsbG8=", yields "Hello" |
| GmailClient.AttachmentSkipped | gmail/gmail_client.py:49-52 | an attachment carrying data is passed over for a later "text/plain; charset=utf-8" part (prefix match) |
| TestSync.NormalizeSubjectToCardTitle | tests/API/test_sync.py:11-27 | the title is stripped and never longer than the subject |
| TestSync.NormalizeStripsPrefix | tests/API/test_sync.py:22-26 | "task:" in any case, with any surrounding white space, is removed together with that white space; exactly one prefix goes |
| TestSync.NormalizeKeepsPlainTitle | tests/API/test_sync.py:22-27 | a stripped title not starting with "task:" in any case comes back unchanged, whatever white space surrounds it |
| TestSync.NormalizeIdempotentIff | tests/API/test_sync.py:24-26 | normalizing a title again leaves it unchanged exactly when the title does not itself start with "task:" |
| TestSync.NormalizeNotIdempotent | tests/API/test_sync.py:24-26 | "Task: Task: X" becomes "Task: X", which becomes "X" |
| TestSync.NormalizeExampleSummarize | tests/API/test_sync.py:16 | "Task: summarize the meeting" gives "summarize the meeting" |
| TestSync.NormalizeTaskCore | tests/API/test_sync.py:22-26 | a subject whose stripped text starts with "task:" in any case normalizes to the rest of that text, stripped again |
| TestSync.NormalizeTaskTitle | tests/API/test_sync.py:22-26 | "Task: " or "Task:" in front of a stripped title normalizes to that title |
| TestSync.NormalizeExampleCleanUp | tests/API/test_sync.py:17 | "Task: Clean up mail" gives "Clean up mail" |
| TestSync.NormalizeExampleCleanUpTight | tests/API/test_sync.py:24-26 | "Task:Clean up mail" also gives "Clean up mail" |
| TestSync.NormalizeExampleHello | tests/API/test_sync.py:18-21 | "Hello" stays as it is, and "" gives "" |
| TestSync.SystemKeywords | tests/API/test_sync.py:31-44 | the `SYSTEM_KEYWORDS` list, code point for code point; `TestSync.KeywordsLowered`, `TestSync.AtlassianKeywordNeverMatchesInUrgentTest` and `TestSync.KeywordFiltersDiffer` are stated about it |
| TestSync.SkippedByUrgentTest | tests/API/test_sync.py:71-73 | the urgent test's denylist filter; `TestSync.KeywordFiltersDiffer`, `TestSync.VerificationCodeSkipped` and `TestSync.NoKeywordLetter` characterise it |
| TestSync.SkippedByMergeTest | tests/API/test_sync.py:129-131 | the merge test's denylist filter; characterised by the same three rows |
| TestSync.AtlassianKeywordNeverMatchesInUrgentTest | tests/API/test_sync.py:71-73 | the mixed-case Atlassian keyword never occurs in a lowered subject, so it never filters in the urgent test |
| TestSync.KeywordLowered | tests/API/test_sync.py:31-42 | each of the first eleven keywords is its own lower case |
| TestSync.LowerAtlassian | tests/API/test_sync.py:43 | the Atlassian keyword lowers to "set your new atlassian password" |
| TestSync.KeywordsLowered | tests/API/test_sync.py:31-44 | all keywords but the last are already lower case; the last one lowers to "set your new atlassian password" |
| TestSync.KeywordFiltersDiffer | tests/API/test_sync.py:129-131 | the merge filter drops a subject exactly when the urgent filter does, or when the subject contains the lowered Atlassian keyword |
| TestSync.VerificationCodeSkipped | tests/API/test_sync.py:40 | a subject containing "verification code" in any case is dropped by both filters |
| TestSync.NoKeywordLetter | tests/API/test_sync.py:31-44 | a subject without `e`, `i` or the two Hebrew initials, in either case, passes both filters |
| TestSync.CardMatches | tests/API/test_sync.py:86 | a card matches when its stripped, lowered name equals the lowered title; used by `TestSync.NoMatchingCard` and `TestSync.FirstMatchingCard` |
| TestSync.MatchingCards | tests/API/test_sync.py:84-87 | the matching cards are at most the whole board |
| TestSync.NoMatchingCard | tests/API/test_sync.py:84-89 | no card matches exactly when no card's stripped, lowered name equals the lowered title |
| TestSync.FirstMatchingCard | tests/API/test_sync.py:84-94 | `matching_cards[0]` is the first matching card in board order |
| UrgentTest.IsUrgent | tests/API/test_sync.py:70-75 | the collection filter; `UrgentTest.UrgentEmailsMembers` and `UrgentTest.NonUrgentDropped` state its effect |
| UrgentTest.UrgentEmails | tests/API/test_sync.py:62-76 | the fold that specifies the collection loop; characterised by `UrgentTest.UrgentEmailsConcat` and `UrgentTest.UrgentEmailsMembers` |
| UrgentTest.UrgentEmailViolation | tests/API/test_sync.py:82-99 | the two assertions for one message; characterised by `UrgentTest.UrgentEmailAgainstBoard` and `UrgentTest.UrgentEmailWithoutCard` |
| UrgentTest.UrgentTestVerdict | tests/API/test_sync.py:62-99 | the verdict of the whole test; characterised by `UrgentTest.UrgentSkipIff`, `UrgentTest.CheckUrgentPassIff` and `UrgentTest.CheckUrgentFirstFailure` |
| UrgentTest.CollectUrgentEmails | tests/API/test_sync.py:62-76 | the collection loop builds exactly the urgent messages found by the fold, with their bodies stripped, in order |
| UrgentTest.RunUrgentChecks | tests/API/test_sync.py:81-99 | the checking loop returns the first violation, or passes |
| UrgentTest.TestUrgentEmailsHaveUrgentTrelloCards | tests/API/test_sync.py:62-99 | the whole test computes the urgent verdict |
| UrgentTest.CheckUrgentEmails | tests/API/test_sync.py:81-99 | checking urgent messages never skips |
| UrgentTest.UrgentEmailsConcat | tests/API/test_sync.py:65-76 | collection distributes over concatenation, so message order is kept |
| UrgentTest.UrgentEmailsMembers | tests/API/test_sync.py:65-76 | an entry is collected exactly when some message is urgent and has that subject and stripped body |
| UrgentTest.UrgentSkipIff | tests/API/test_sync.py:78-79 | the test skips exactly when no message is urgent |
| UrgentTest.CheckUrgentPassIff | tests/API/test_sync.py:81-99 | the checks pass exactly when no urgent message has a violation |
| UrgentTest.CheckUrgentFirstFailure | tests/API/test_sync.py:81-99 | a failure reports the violation of the first failing urgent message |
| UrgentTest.UrgentEmailAgainstBoard | tests/API/test_sync.py:84-97 | with a matching card, the verdict depends only on "Urgent" being among the labels of the first matching card |
| UrgentTest.UrgentEmailWithoutCard | tests/API/test_sync.py:84-92 | with no matching card, the violation names the subject and the expected title |
| UrgentTest.NonUrgentDropped | tests/API/test_sync.py:70-76 | a non-urgent message can be removed from anywhere in the inbox without changing what is collected |
| UrgentTest.VerificationCodeIgnored | tests/API/test_sync.py:70-73 | a "verification code" mail anywhere in the inbox never changes the verdict |
| UrgentTest.UrgentBodyText | tests/API/test_sync.py:68-75 | the body "contains Urgent text" counts as urgent once stripped and lowered |
| UrgentTest.TaskXIsUrgent | tests/API/test_sync.py:65-82 | "Task: X" with "contains Urgent text" is collected and maps to the title "X" |
| UrgentTest.XCardMatches | tests/API/test_sync.py:84-87 | a card named "X" matches the title "X" |
| UrgentTest.UrgentCardLabelled | tests/API/test_sync.py:81-99 | that message against a card "X" labelled "Urgent" passes |
| UrgentTest.UrgentCardUnlabelled | tests/API/test_sync.py:94-99 | against a card "X" without the label, the test fails naming the card and the subject |
| UrgentTest.UrgentWithoutBoard | tests/API/test_sync.py:84-92 | against an empty board, the test fails naming the subject and the title "X" |
| MergeTest.KeptForMerge | tests/API/test_sync.py:121-131 | the grouping loop's filters; `MergeTest.DroppedMessage` states that a dropped message has no effect |
| MergeTest.AddToGroups | tests/API/test_sync.py:133 | `setdefault(subject, []).append(body)`; characterised by `MergeTest.AddToGroupsSubjects` and `MergeTest.AddToGroupsLookup` |
| MergeTest.SubjectGroups | tests/API/test_sync.py:117-133 | `subject_groups` after the loop; characterised by `MergeTest.SubjectGroupsSpec` and `MergeTest.SubjectsAreFirstArrivals` |
| MergeTest.Grouped | tests/API/test_sync.py:119-133 | the fold that specifies the grouping loop; tied to the reference by `MergeTest.SubjectGroupsSpec` and `MergeTest.SubjectsAreFirstArrivals` |
| MergeTest.GroupViolation | tests/API/test_sync.py:147-170 | the assertions for one group; characterised by `MergeTest.GroupAgainstBoard` and `MergeTest.GroupWithoutCard` |
| MergeTest.MergeTestVerdict | tests/API/test_sync.py:117-170 | the verdict of the whole test; characterised by `MergeTest.MergeSkipIff`, `MergeTest.MergePassIff` and `MergeTest.MergeFirstFailure` |
| MergeTest.BuildSubjectGroups | tests/API/test_sync.py:117-133 | the grouping loop builds exactly the groups of the fold |
| MergeTest.MergeRequired | tests/API/test_sync.py:136-140 | `merge_required` is no larger than the dictionary |
| MergeTest.FirstMissingBody | tests/API/test_sync.py:164-170 | a reported body belongs to the group, is not empty, and is missing from the description |
| MergeTest.CheckMergedGroups | tests/API/test_sync.py:145-170 | checking groups never skips |
| MergeTest.RunMergeChecks | tests/API/test_sync.py:145-170 | the nested checking loops return the first violation, or pass |
| MergeTest.TestMergingEmailsSameSubjectSingleTrelloCard | tests/API/test_sync.py:117-170 | the whole test computes the merge verdict |
| MergeTest.AddToGroupsSubjects | tests/API/test_sync.py:133 | `setdefault(...).append` adds a subject at the end only when it is new |
| MergeTest.AddToGroupsLookup | tests/API/test_sync.py:133 | `setdefault(...).append` appends the body to its subject's list and changes no other list |
| MergeTest.SubjectGroupsSpec | tests/API/test_sync.py:117-133 | after the loop, each subject maps to the stripped bodies filed under it in arrival order; a subject is a key exactly when something is filed under it; and keys are distinct |
| MergeTest.SubjectsAreFirstArrivals | tests/API/test_sync.py:117-133 | the dictionary's keys are exactly the stripped subjects of the kept messages that are the first filed under their subject, in inbox order |
| MergeTest.SubjectGroupsAre | tests/API/test_sync.py:117-133 | every group holds exactly its subject's filed bodies, and none is empty |
| MergeTest.BodiesForOne | tests/API/test_sync.py:119-133 | a subject has some body exactly when some message is kept under it |
| MergeTest.BodiesForTwo | tests/API/test_sync.py:119-133 | a subject has two bodies exactly when two different kept messages carry it |
| MergeTest.BodiesForNonEmpty | tests/API/test_sync.py:125-126 | every filed body is non-empty, so the check's `if not body` never fires |
| MergeTest.MergeRequiredEmpty | tests/API/test_sync.py:136-143 | `merge_required` is empty exactly when every group has at most one body |
| MergeTest.MergeRequiredMembers | tests/API/test_sync.py:136-140 | a group is in `merge_required` exactly when it is in the dictionary with more than one body |
| MergeTest.MergeRequiredOrder | tests/API/test_sync.py:136-140 | `merge_required` keeps the dictionary's order: any two of its groups stand in the same order in the dictionary |
| MergeTest.NothingToMergeIff | tests/API/test_sync.py:136-143 | nothing needs merging exactly when every subject has at most one filed body |
| MergeTest.MergeSkipIff | tests/API/test_sync.py:119-143 | the test skips exactly when no two kept messages share a stripped subject |
| MergeTest.FirstMissingBodyNoneIff | tests/API/test_sync.py:164-170 | the inner loop finds nothing missing exactly when every non-empty body is in the description |
| MergeTest.FirstMissingBodyIsFirst | tests/API/test_sync.py:164-170 | the inner loop reports the first missing body |
| MergeTest.GroupAgainstBoard | tests/API/test_sync.py:150-170 | a group passes exactly when the first matching card's description holds every non-empty body |
| MergeTest.GroupWithoutCard | tests/API/test_sync.py:150-158 | with no matching card, the violation names the subject and the expected title |
| MergeTest.CheckMergedPassIff | tests/API/test_sync.py:145-170 | the checks pass exactly when every group needing a merge passes |
| MergeTest.CheckMergedFirstFailure | tests/API/test_sync.py:145-170 | a failure reports the violation of the first failing group in dictionary order |
| MergeTest.MergePassIff | tests/API/test_sync.py:117-170 | the test passes exactly when some subject is filed more than once and each such subject's full group passes against the board |
| MergeTest.MergeFirstFailure | tests/API/test_sync.py:117-170 | when a subject filed more than once fails, and every such subject that first arrived before it passes, the test reports that subject's violation |
| MergeTest.RequiredGroupOf | tests/API/test_sync.py:136-140 | every subject filed more than once appears in `merge_required` with all its bodies |
| MergeTest.RequiredGroupIs | tests/API/test_sync.py:136-140 | every entry of `merge_required` is a subject filed more than once, with all its bodies |
| MergeTest.GroupedConcat | tests/API/test_sync.py:119-133 | grouping a concatenation continues from the groups of the first part |
| MergeTest.DroppedMessage | tests/API/test_sync.py:124-131 | a message the filters drop can be removed from anywhere in the inbox without changing the groups |
| MergeTest.VerificationCodeIgnored | tests/API/test_sync.py:128-131 | a "verification code" mail anywhere in the inbox never changes the verdict |
| MergeTest.BugMessagesGrouped | tests/API/test_sync.py:117-133 | two "Bug" messages with bodies "A" and "B" form one group with both bodies, in order |
| MergeTest.BugTitle | tests/API/test_sync.py:147-153 | "Bug" keeps its title, and a card named "Bug" matches it |
| MergeTest.BothBodiesInDescription | tests/API/test_sync.py:164-170 | "A" and "B" are both in "A and B together" |
| MergeTest.BugCardHoldsBoth | tests/API/test_sync.py:117-170 | those two messages against a card "Bug" described "A and B together" pass |
| MergeTest.BugCardLacksSecond | tests/API/test_sync.py:160-170 | against a card described "A only", the test fails reporting body "B" |

## Left out

- `GmailClient.__init__`, `list_messages` and `get_message` (gmail/gmail_client.py:6-16) are left out. They are OAuth and Google API calls. The tests receive their results as the `msgs` snapshot.
- The Trello client is not part of this model. Its card list is the `cards` parameter. A card without a description or labels has `""` and `[]` there, as each test reads it.
- The UI tests (tests/ui/) are left out. They are browser automation, waits, and authentication state.
- `allure` reports, `pytest.skip` and assertion message texts are left out. They are represented only by the `Skip`, `Pass` and `Fail` verdicts and the violated assertion's data.
- PyStr.Lower: it lowers ASCII letters only, while Python's `str.lower` maps every cased letter, and some non-ASCII letters lower to ASCII ones (U+212A KELVIN SIGN lowers to `k`). So for titles and card names holding non-ASCII cased letters, the model differs in two places. Case-insensitive card matching (`TestSync.CardMatches`) does not match "Über" with "über". The "task:" prefix test keeps "TAS\u212A: X" unchanged, where Python gives "X". The denylist filters (`TestSync.SkippedByUrgentTest`, `TestSync.SkippedByMergeTest`) and the "urgent" body test (`UrgentTest.IsUrgent`) find the same matches as Python. Only U+212A and U+0130 lower to anything holding ASCII (`k`, and `i` followed by U+0307). No keyword and not "urgent" contains `k` or U+0307, and none ends in `i`. The Hebrew keywords have no case.
- In the urgent test's failure message, `card['name']` (tests/API/test_sync.py:98) raises `KeyError` for a matching card without a `name` key. Such a card matches only the title "". The model reports `MissingUrgentLabel("", subject)` instead of that crash.
- The snapshots hold the extracted subject and body as strings, which is `extract_subject(msg) or ""` and `extract_body(msg) or ""`. The model does not compose the extractors' errors into the tests. A `KeyError` from `extract_subject` or a decode error from `extract_body` would abort a test with an error rather than a verdict.
- `normalize_subject_to_card_title(None)` is not modelled, because every caller passes a string. The `""` case is.
- In the urgent test, a card whose name is JSON `null` would make `.strip()` raise. That crash is not modelled, and the name is read as a string.
- In the urgent test, a matching card whose `labels` is JSON `null` makes the label comprehension (tests/API/test_sync.py:95) iterate over `None` and raise `TypeError`. That crash is not modelled. The labels are read as `[]`, and the test reports `MissingUrgentLabel`.
- A label without a name is read as `""`. It can never equal "Urgent", so nothing changes.
- A header without `name` or `value`, or a part of the wrong JSON type, would raise. The datatypes always carry those fields.
- Base64: the decoder follows CPython 3.11 and later. Earlier versions treat some pad sequences differently. Strict mode is never used.
- Utf8.DecodeIgnore: it drops one byte at a time wherever no well-formed sequence starts. Under `errors="ignore"` this drops the same bytes as CPython's maximal-subpart rule.
- The checks report only their first violation, as `assert` stops the test there.
