# Email triage core, modelled in Dafny

The email triage service receives an inbound email stored as an object in a
bucket. It decides whether the email is relevant: the sender address found in
the raw text must be on an allow-list of booking addresses. An email that is
not relevant is moved from the `emails/` folder to `no_relevante/`. This
project models the three pure or near-pure operations of
`email_triage/email_utils.py` behind that decision, and proves properties
about them:

- `should_email_be_processed` is modelled by module `SenderMatch`. The regular
  expression `^From:.*<([^>]+)>` is searched under IGNORECASE and MULTILINE.
  The ghost predicates `MatchAt` and `SearchResult` give it meaning. `Search`
  is a scanner proved to return exactly that match. The captured group is
  stripped and then looked up in the allow-list.
- `extract_email_body` is modelled by module `EmailBody`. Parts come in walk
  order, each with its content type and the outcome of decoding it. The
  `plain` and `html` fields are compared against a reference fold, `Collect`.
- `move_email_to_no_relevante` is modelled by module `Archive`. The key
  rewrite is `str.replace("emails/", "no_relevante/")`. It is followed by a
  copy and then a delete over a bucket modelled as a map from key to bytes.
- Python's `str.strip()` and `str.replace()` are modelled in module `PyStr`.
  The whitespace set is the one of `str.isspace`. Replacement is
  left-to-right and non-overlapping.

In three places the model follows the code where a reader might expect
otherwise:

- The sender comes from the first line that starts with `From:` (in any
  letter case) and admits a match. A `From:` line with no closable `<` is
  skipped, and the search goes on to later lines. On the chosen line, the
  greedy `.*` settles on the rightmost `<` that `[^>]+>` can close. The
  sender is the text between that `<` and the first `>` after it. Address-list
  parsing is not used.
- A single-part message fills at most one of `plain` and `html`, not exactly
  one. A part that is neither `text/plain` nor `text/html`, or whose decoding
  raises, leaves both fields empty.
- The key rewrite replaces every occurrence of `emails/` in the key, not only
  a leading prefix.

## Model

| member | source | states |
|---|---|---|
| PyStr.Strip | email_triage/email_utils.py:111 | `.strip()`: never longer than its input, and neither starts nor ends with whitespace. `StripSpec` and `StripUnique` pin it down completely. |
| PyStr.StripSpec | email_triage/email_utils.py:111 | `strip()` removes a run of whitespace from each end. What remains neither starts nor ends with whitespace and is a contiguous slice of the input. |
| PyStr.StripUnique | email_triage/email_utils.py:111 | The stripped form of a text is unique: two results that both meet the strip characterisation are equal. |
| PyStr.StripIdempotent | email_triage/email_utils.py:111 | Stripping an already stripped address changes nothing. |
| PyStr.ReplaceAll | email_triage/email_utils.py:144 | `.replace(pat, rep)`: a replacement at least as long as the pattern never shortens the text. `ReplaceWithoutOccurrence` and `ReplaceAtFirstOccurrence` pin it down completely. |
| PyStr.ReplaceWithoutOccurrence | email_triage/email_utils.py:144 | `replace` leaves a text with no occurrence of the pattern unchanged. |
| PyStr.ReplaceAtFirstOccurrence | email_triage/email_utils.py:144 | At the leftmost occurrence, `replace` keeps the text before it, emits the replacement, and continues on the rest of the text. |
| PyStr.ReplaceUnchangedIff | email_triage/email_utils.py:144 | When the replacement is longer than the pattern, the result equals the input if and only if the pattern does not occur. |
| SenderMatch.LastClosable | email_triage/email_utils.py:109 | Within a window, finds the rightmost `<` that the capture `([^>]+)>` can close. No `<` to its right can be closed. `None` means no `<` in the window can be closed. |
| SenderMatch.LineMatch | email_triage/email_utils.py:109 | On a line that starts with `From:`, the greedy `.*` settles on the rightmost closable `<`, and the match closes at the first `>` after it. `None` means the line admits no match at all. |
| SenderMatch.SearchFrom | email_triage/email_utils.py:109 | Scanning line by line from a line start finds the match of the earliest line that admits one. |
| SenderMatch.Search | email_triage/email_utils.py:109 | `re.search` with MULTILINE: the result is the leftmost match with the rightmost `<` on its line. `None` means the pattern matches nowhere. |
| SenderMatch.SearchResultUnique | email_triage/email_utils.py:109 | At most one triple of positions is the reported match. |
| SenderMatch.SearchIgnoresCase | email_triage/email_utils.py:109 | IGNORECASE: two texts that differ only in ASCII letter case yield the same match positions. |
| SenderMatch.Sender | email_triage/email_utils.py:109-111 | `match.group(1).strip()` when the pattern matches. `None` implies that no line matches; `NoMatchNoSender` proves the converse. |
| SenderMatch.NoMatchNoSender | email_triage/email_utils.py:109-110 | When the pattern matches nowhere, there is no sender, the converse of `Sender`'s `None` clause. |
| SenderMatch.SenderIsSender | email_triage/email_utils.py:109-111 | A text has at most one sender, and it is the one `Sender` returns. |
| SenderMatch.ShouldEmailBeProcessed | email_triage/email_utils.py:104-120 | The email is relevant if and only if there is a sender and it is, character for character, in the allow-list. An empty allow-list rejects every email. |
| SenderMatch.MidLineHeaderIgnored | email_triage/email_utils.py:109 | On a single line that does not begin with `From:`, nothing matches, even if `From:` appears later on the line. The email is then rejected. |
| EmailBody.ExtractEmailBody | email_triage/email_utils.py:38-80 | Multipart: each field is the concatenation, in walk order, of the decoded parts of its type. Single part: at most one field is filled, by that part's decoded text. |
| EmailBody.CollectAppend | email_triage/email_utils.py:49-64 | The body of a concatenated walk is the concatenation of the bodies of its two pieces. |
| EmailBody.CollectSkipsPart | email_triage/email_utils.py:50-64 | Dropping a part of another type, or one whose decoding raised, does not change the body. |
| EmailBody.CollectNone | email_triage/email_utils.py:44-64 | Without a decodable part of the given type, the field stays `""`. |
| EmailBody.CollectContains | email_triage/email_utils.py:49-64 | Every decodable part of the given type appears in the field, in place, between the text of the parts before it and the text of the parts after it. |
| EmailBody.SingleAsMultiPart | email_triage/email_utils.py:65-78 | A single-part message reads like a walk that yields that one part. |
| Archive.ArchiveKey | email_triage/email_utils.py:144 | The archive key differs from the key if and only if the key contains `emails/`. |
| Archive.ArchiveKeyAtFirstOccurrence | email_triage/email_utils.py:144 | The first `emails/` becomes `no_relevante/`, the text before it is kept, and the rest of the key is rewritten the same way. |
| Archive.ArchiveKeyOfInboxObject | email_triage/email_utils.py:144 | `emails/<name>` becomes `no_relevante/<name>` when `name` contains no `emails/`. |
| Archive.ArchiveKeyExample | email_triage/email_utils.py:144 | `emails/x.eml` becomes `no_relevante/x.eml`. |
| Archive.ArchiveKeyHasNoInboxPrefix | email_triage/email_utils.py:144 | No `emails/` is left in an archive key. |
| Archive.ArchiveKeyIdempotent | email_triage/email_utils.py:144 | Archiving an archive key again leaves it unchanged. |
| Archive.Copy | email_triage/email_utils.py:145-149 | A copy succeeds only if the source object exists. On success the destination holds the source's content and every other key is unchanged. |
| Archive.Delete | email_triage/email_utils.py:150 | On success, only the deleted key is removed. |
| Archive.MoveEmailToNoRelevante | email_triage/email_utils.py:139-153 | The copy is always issued. The delete is issued only after the copy succeeds. A failed copy leaves the bucket unchanged. A failed delete leaves the email under both keys. A full move leaves it only under the archive key. No other object is touched. |
| Archive.MoveKeepsContent | email_triage/email_utils.py:143-153 | For a key containing `emails/`, the email's content survives under the original key or under the archive key, whatever the outcome of either call. |
| Archive.MoveToSameKeyDeletes | email_triage/email_utils.py:144-150 | A key without `emails/` is its own archive key. If both calls succeed, the move deletes the email outright. |

## Left out

- `extract_email_headers` (lines 24-35): it reads headers and calls `getaddresses` from Python's `email.utils`, a library this model does not include.
- `read_email_in_s3` and `send_queue_message` (lines 83-101 and 123-136): storage reads and queue sends are I/O. Parsing bytes into a MIME message belongs to Python's `email` package.
- MIME decoding: each part carries its decoded text, or `None` when `get_payload(decode=True).decode(...)` raised. Transfer decoding and charset handling are not modelled.
- Content types are taken as `get_content_type()` reports them, already lower-cased.
- Whether `copy_object` and `delete_object` succeed is an input. The only failure the model derives itself is a missing source object. The storage service may refuse to copy an object onto its own key; that refusal is also left to the copy-outcome input.
- Logging and the `except` clauses' messages are not modelled. The caught exceptions appear as the `None` decoding outcome and as the `CopyFailed`/`DeleteFailed` statuses. `should_email_be_processed` catches nothing; there, `Sender` returning `None` means only that the pattern found no match.
- `email_triage/app.py` and `email_triage/helpers_functions.py` are not part of this model. `app.py` holds an event handler that reads the object as UTF-8 text and calls its own stub `should_email_be_processed`, which always returns `True`. It then forwards the notification body to the queue and never calls `email_utils.py`. `helpers_functions.py` holds a queue send.
- IGNORECASE is modelled as ASCII case folding. This is exact for this pattern, because the letters of `From:` have no non-ASCII case partners in Python's regex engine.
