# Confirmation mailer: a Dafny model of its core

The program watches a folder for new PDF confirmation letters. For each one it
takes the first e-mail address in the letter's text and mails the letter back
to that address. It also appends a record to `sent_log.csv` for each letter
it mails or finds no address in, after a header line when the file is new; a
letter whose send raises gets no record. This project models the three parts of `main.py` that decide what happens:

- **Address extraction** (`email_pattern.dfy`, `pdf_extraction.dfy`). The
  pattern `[a-zA-Z0-9._%+-]+@[a-zA-Z0-9.-]+\.[a-zA-Z]{2,}` is given two
  descriptions. The first is declarative: `Matches(s, i, j)` says `s[i..j]` is
  in the pattern's language. The second is a scanner that does what Python's
  backtracking `re.search` does:
  - the local part takes the whole run of local-part characters;
  - the domain run gives back one character at a time until a `.` followed by
    two letters is found;
  - the last label takes every letter that follows.

  The scanner is proved to return exactly the leftmost match, and at that start
  the longest one. With this pattern, Python's first-found match is always the
  longest one at its start. Page reading is modelled as an ordered list of
  pages. Each page is either its text or a read failure, and the whole file
  may fail to open.
- **Outcome log** (`outcome_log.dfy`). The log is a class holding an "exists"
  flag and its lines: the header, when it was written, then one record per
  write. A write adds the header only when the file did not exist, then
  exactly one `name,status,email,timestamp` record. The file's bytes are
  those lines, each followed by `\n`. A reader splits the bytes into lines at `\n` and
  each line into fields at commas, and this reader is the partner that the
  round-trip lemmas use. A field holding a comma or a line break breaks the
  round trip, and lemmas exhibit both cases.
- **Per-event handling** (`pipeline.dfy`). Events are filtered to
  non-directories whose path ends in `.pdf` (case-sensitive). The handler then
  branches on the extraction result. If an address was found it sends, then
  logs "Email sent". Otherwise it logs "No email found" with "N/A". The relay
  is an oracle that delivers or fails. A failure raises before `log_success`,
  so nothing is logged.

`paths.dfy` holds `os.path.basename` (POSIX) and `str.endswith`; `wrappers.dfy`
holds `Option`.

Two consequences of the code's structure:

- A send that raises writes no record, and a failed delivery has no status
  of its own. The exception leaves `on_created` before any logging, so the
  model's `SendRaised` outcome leaves the log unchanged.
- A document produces exactly one record only when its send does not raise
  (`LoggedRecord`). A raise can even come after the relay accepted the
  message: leaving the `with smtplib.SMTP(...)` block sends QUIT, and a
  QUIT answered with a code other than 221 raises.

## Model

| member | source | states |
|---|---|---|
| EmailPattern.RunEnd | main.py:29 | A greedy `+` over one bracket class. It stops at the end of the maximal run: every character before the result is in the class, and the one at the result (if any) is not. |
| EmailPattern.LastTldDot | main.py:29 | The domain's backtracking finds the last position in the range that holds a `.` followed by two ASCII letters. When it returns none, no position in the range qualifies. |
| EmailPattern.MatchAt | main.py:29 | A match found at start `i` is at least 6 characters long (`x@y.zz`) and lies within the text. |
| EmailPattern.Search | main.py:40 | `re.search` over the whole text: a reported match lies within the text and spans at least 6 characters. SearchCorrect gives its full meaning. |
| EmailPattern.FindEmail | main.py:40-42 | `search` followed by `group(0)`: an address found is a piece of the text at least 6 characters long. |
| EmailPattern.SearchFrom | main.py:40 | A match reported from position `i` on starts at or after `i` and lies within the text. |
| EmailPattern.AtSignEndsLocalRun | main.py:29 | In any match, the `@` sits exactly where the maximal local-part run from the start ends. So the local part is the whole run before `@`. |
| EmailPattern.DotInsideDomainRun | main.py:29 | In any match, the `\.` is followed by two letters, lies at least two places after the `@`, and the match ends within the maximal domain run. |
| EmailPattern.NoLongerMatch | main.py:29 | No match starting at `i` ends after the end that the engine's backtracking reports for `i`. |
| EmailPattern.MatchAtCorrect | main.py:29 | The engine's attempt at one start succeeds exactly when some match starts there, and it returns the longest such match. |
| EmailPattern.SearchFromCorrect | main.py:40 | Searching from `from` returns the first start at or after `from` where a match begins, with its longest end. When it returns nothing, no match begins at or after `from`. |
| EmailPattern.NoMatchBeforeStart | main.py:40 | No match begins before position 0. |
| EmailPattern.SearchCorrect | main.py:40 | `re.search` finds nothing iff the text holds no match. Otherwise it returns the leftmost start with the longest end there, and it is the only pair with that property. |
| EmailPattern.MatchIsEmailAddress | main.py:40-42 | A match inside a text, cut out as `group(0)`, is by itself a whole-string match of the pattern. |
| EmailPattern.FindEmailCorrect | main.py:40-42 | `search` followed by `group(0)` is `None` iff the text holds no match. Otherwise it is the text slice of the leftmost-longest match, and has the pattern's shape. |
| EmailPattern.EmailAddressShape | main.py:29 | An address of the pattern's shape has at least 6 characters and no comma. |
| PdfExtraction.ScanPages | main.py:38-43 | The page loop with its early return: an answer is the match found on one of the pages. |
| PdfExtraction.ExtractEmail | main.py:35-46 | `extract_email_from_pdf`: an answer comes from a file that opened, and is the match found on one of its pages. |
| PdfExtraction.SkipMisses | main.py:38-43 | Pages that were read and hold no match can be skipped: the loop's answer equals its answer on the remaining pages. |
| PdfExtraction.ScanPagesFirstHit | main.py:38-42 | First page wins. When page `k` is the first page with a match and no earlier page failed, the answer is that page's match. Every answer is of this kind. |
| PdfExtraction.AnswerHasFirstHit | main.py:38-42 | Every address the loop returns is the match of the first page with a match, and no earlier page failed to read. |
| PdfExtraction.NothingFound | main.py:43 | When no readable page holds a match, the answer is `None`. |
| PdfExtraction.UnreadablePageGivesNone | main.py:44-46 | A page that fails to read, reached before any match, makes the answer `None`. |
| PdfExtraction.ExtractEmailNone | main.py:35-46 | The answer is `None` exactly when one of three things holds: the file cannot be opened, the loop ends at an unreadable page, or the loop runs past the last page. |
| PdfExtraction.LaterPagesIgnored | main.py:38-42 | Pages after the one where the loop ends are never examined. Replacing them by any other pages leaves the answer unchanged. |
| PdfExtraction.ExtractedAddressShape | main.py:40-42 | A returned address is a whole-string match of the pattern, at least 6 characters long, with no comma. |
| PdfExtraction.ExtractEmailFromPdf | main.py:35-46 | The page loop with its early return computes the same answer as the recursive definition `ExtractEmail`. |
| Paths.Basename | main.py:74 | `os.path.basename` gives the longest suffix of the path without a `/`. The result holds no `/`, is a suffix of the path, and is preceded by a `/` unless it is the whole path. |
| Paths.EndsWith | main.py:92 | `str.endswith` holds iff some tail of the string is exactly the suffix. |
| Paths.BasenameKeepsSuffix | main.py:74 | A suffix holding no `/`, such as `.pdf`, is kept by `os.path.basename`. |
| OutcomeLogging.FormatLine | main.py:86 | The record line holds a line break iff one of its four fields does. |
| OutcomeLogging.Write | main.py:81-86 | One `write_log_entry`: the file now exists, its old lines are kept, the header follows iff the file did not exist, and the record is the last line. |
| OutcomeLogging.ReplayAppends | main.py:82-86 | Over any series of writes, earlier lines are kept. The header is added once, and only if the file did not exist. Each write then adds exactly its own line, in call order. |
| OutcomeLogging.SpacedStatusIsNotHeader | main.py:85-86 | A record line whose status holds a space differs from the header line. |
| OutcomeLogging.LinesRoundTrip | main.py:84-86 | Lines without line breaks, each written with its `\n`, are read back from the file exactly as written. |
| OutcomeLogging.HeaderOnceFirst | main.py:82-86 | Starting with no file, with the program's two statuses, and with file names, addresses and timestamps free of line breaks: the file reads back as the header followed by one line per write, and the header appears nowhere else. |
| OutcomeLogging.HeaderForgedByFileName | main.py:84-86 | A file name holding line breaks around the header text puts a second header line into a fresh file. |
| OutcomeLogging.LineRoundTrip | main.py:86 | A record whose fields hold no comma and no line break is one line of the file, and reads back as exactly its four fields, in order. |
| OutcomeLogging.CommaInFileNameShiftsFields | main.py:86 | Fields are unquoted, so a file name with a comma reads back as two fields and the line has five. |
| OutcomeLogging.OutcomeLog.constructor | main.py:82 | The log starts either absent with no lines, or present with the lines it already holds. |
| OutcomeLogging.OutcomeLog.WriteLogEntry | main.py:81-86 | The file now exists. Its lines are the old lines, then the header if the file did not exist before, then `name,status,email,timestamp`. |
| OutcomeLogging.OutcomeLog.LogFailure | main.py:73-74 | Writes the base name of the path, "No email found" and "N/A". |
| OutcomeLogging.OutcomeLog.LogSuccess | main.py:77-78 | Writes the base name of the path, "Email sent" and the address. |
| Pipeline.IsNewPdf | main.py:92-93 | The filter admits only non-directories whose path ends in `.pdf`, and the base name of such a path ends in `.pdf` too. |
| Pipeline.Decide | main.py:92-105 | Only a filtered event is handled. An address a send is attempted for is the one extracted, and has the pattern's shape. |
| Pipeline.RecordFor | main.py:100-105 | A record exists iff the outcome is sent or no-email. It carries the base name and the timestamp, "Email sent" exactly for a sent outcome, and then the recipient's address. |
| Pipeline.DecideCases | main.py:92-105 | An event is ignored iff it is a directory or its path does not end in `.pdf`. Otherwise there are two cases. With an address found, the outcome is sent (relay delivers) or raised (relay fails), always with that address as recipient. With no address found, the outcome is no-email. The `if email:` test never rejects a found address. |
| Pipeline.UpperCaseSuffixIgnored | main.py:92-93 | The suffix test is case-sensitive: a path ending in `.PDF` is ignored. |
| Pipeline.LoggedRecord | main.py:100-105 | An ignored event or a raising send logs nothing. Otherwise exactly one record is written, after the header line when the file did not exist. The record carries the path's base name and either "Email sent" plus the address found, or "No email found" plus "N/A". |
| Pipeline.RecordReadsBack | main.py:86 | A logged line carries one of the two statuses. When the base name, the timestamp and the recipient hold no comma and no line break, the record is one line of the file and reads back as its four fields. |
| Pipeline.LoggedLineReadsBack | main.py:86 | A record logged by the handler is one line of the file and reads back as its four fields whenever the base name and the timestamp hold no comma and no line break. An extracted address never holds either. |
| Pipeline.SendEmailWithAttachment | main.py:63-70 | The send comes first. When the send fails, the call raises and the log is unchanged. Otherwise the success record is written as `Write` does: the header first if the file was absent, then the record. |
| Pipeline.OnCreated | main.py:90-105 | The outcome is `Decide`'s. The returned address is the one `send_email_with_attachment` was called with: the found address, or none when it was not called. It is returned even when the send raised before anything reached the relay. The log is written as `Write` does with the outcome's `RecordFor` record (the header first if the file was absent, then the record), or is unchanged when there is no record. |

## Left out

- PyMuPDF (`fitz.open`, page iteration, `get_text`): a foreign library. The model takes the document as "cannot open" or an ordered list of pages, each its text or a read failure.
- Message composition (`EmailMessage`, subject, body, sender, attachment bytes and file name, main.py:50-60) and the SMTP session (connect, STARTTLS, login, send, and the QUIT sent on leaving the `with` block, main.py:63-67): network I/O through libraries the model cannot see. Reading the attachment and the whole session are one oracle, `Delivery`, that delivers or raises. A QUIT answered with a code other than 221 raises after the relay accepted the message; it counts as `Failed`, so that letter is delivered but has no record.
- What happens after an exception escapes `on_created` is up to the watcher library, and is not part of this model.
- The watcher (`Observer`, scheduling, threads, `join`), the keep-alive loop and the Ctrl+C handling (main.py:108-121): event plumbing and process lifetime.
- `time.sleep(2)` (main.py:95) and `time.strftime` (main.py:86): wall-clock behaviour. The timestamp is an opaque string parameter.
- `print` diagnostics, `os.makedirs` (main.py:109) and the start-up check of `SMTP_PASSWORD` (main.py:18-22): I/O and configuration.
- The real file operations are left out. The log is the class's state, one element per line (the header, then the records) without its `\n`; `Contents` gives the bytes the file then holds. Failures of the log file's own open or write are not modelled.
- OutcomeLogging.OutcomeLog.constructor: an existing log is taken as a sequence of `\n`-terminated lines. A file whose last line lacks its `\n` cannot be represented; the program would glue its next record onto that line.
- OutcomeLogging.HeaderOnceFirst: stated only for file names, addresses and timestamps without line breaks. A file name with line breaks can forge a header line (HeaderForgedByFileName), so no stronger promise holds.
- Paths.Basename: models POSIX `os.path.basename` only; Windows separators are not modelled.
- OutcomeLogging.ReadLines: the reader ends lines at `\n` only. A reader that also ends lines at `\r` (Python's universal newlines, the `csv` module) sees a field holding `\r` split; the round trips of HeaderOnceFirst, LineRoundTrip, RecordReadsBack and LoggedLineReadsBack are not stated for such a reader.
- OutcomeLogging.LineRoundTrip: the round trip is stated only for fields without commas or line breaks. The written format escapes neither (see CommaInFileNameShiftsFields and HeaderForgedByFileName), so no stronger promise holds.
- Pipeline.RecordReadsBack: stated only for a base name, timestamp and recipient without commas or line breaks, for the same reason as LineRoundTrip.
- Pipeline.LoggedLineReadsBack: stated only for a base name and timestamp without commas or line breaks, for the same reason as LineRoundTrip. POSIX file names may hold both.
- Characters are Dafny `char`s. The pattern's brackets are ASCII ranges, as they are in Python, and no other Unicode behaviour of `re` is involved.
