# USCIS case-status checker: the string logic

The checker looks up the status of an immigration case on the USCIS
case-status site by its receipt number, cuts the status label and its
description out of two elements of the returned page, and can mail the
result from an account whose address and password sit in a two-line secret
file. Everything around that is I/O: an HTTP GET, an HTML parser, an SMTP
client and a file read.

This project models the string logic inside that glue, in Dafny:

- `Text` (`text.dfy`): the Python string operations it relies on —
  `str.strip()` (as `Strip`, built from `TrimStart` and `TrimEnd`),
  `str.split(sep)` (as `Split`, the leftmost non-overlapping scan) and
  `sep.join` (as `Join`, the reference that `Split` is proved against).
- `UscisStatus` (`uscis.dfy`): the records of `main.py` (`UscisData`,
  `Credential`, `Email`, and `Status` for the returned pair), the credential
  parser `ReadCred`, the per-element extraction rule `ExtractSegment`, the
  two-element `ExtractStatus`, the lookup URL `StatusUrl`, the notification
  record `MakeEmail`, and `CaseNotification`, which strings the pure steps of
  one mailed case together in the program's order.
- `Wrappers` (`wrappers.dfy`): the `Result` datatype that stands for the
  exceptions the program lets propagate.

The HTML lookup is replaced by its outcome: the text contents of the elements
of one CSS class, as a `seq<string>` (empty when the page has none).
The two `IndexError`s that `extract_status` can raise are two constructors
of `ExtractError` (`NoMatchingElement` for the missing element,
`TooFewSegments` for the missing second piece); the program itself does not
tell them apart. The `TypeError` that the positional `Credential(*data)`
raises is `MissingArgument("password")` for one line and
`TooManyArguments(n)` for `n` > 2 pieces.

`Credential(*data)` refuses more than two pieces as well as fewer, so a
credential file with a trailing newline is rejected (`ReadCred`,
`ReadCredTrailingNewline`).

## Model

| member | source | states |
|---|---|---|
| `Text.TrimStart` | main.py:49 | the result is no longer than the input and does not start with whitespace |
| `Text.TrimStartSuffix` | main.py:49 | the result of `TrimStart` is a suffix of the input, and what it drops in front is all whitespace |
| `Text.TrimEnd` | main.py:49 | the result is no longer than the input and does not end with whitespace |
| `Text.TrimEndPrefix` | main.py:49 | the result of `TrimEnd` is a prefix of the input, and what it drops at the back is all whitespace |
| `Text.Strip` | main.py:49-50 | the result is no longer than the input and has no whitespace at either end |
| `Text.StripSurrounds` | main.py:49-50 | the result is a contiguous part of the input with nothing but whitespace before and after it |
| `Text.StripUnique` | main.py:49-50 | any whitespace around a string that has none at its ends is exactly what strip removes |
| `Text.StrippedIsFixed` | main.py:50 | a string without whitespace at its ends is left unchanged by strip |
| `Text.StripIdempotent` | main.py:49-50 | stripping twice equals stripping once |
| `Text.Split` | main.py:49 | there is always at least one piece, also for the empty string |
| `Text.SplitJoin` | main.py:49 | the pieces, rejoined with the separator, give back the input exactly |
| `Text.SplitPiecesFree` | main.py:49 | no piece contains the separator |
| `Text.SplitFirstTwo` | main.py:49 | with two pieces or more, the input is the first piece, the separator, the second piece, and then nothing or the separator again; neither piece holds the separator |
| `Text.SplitSeparates` | main.py:49 | the split yields at least two pieces if and only if the separator occurs in the input |
| `Text.SplitSecondPiece` | main.py:49 | for a separator that cannot overlap itself, the second piece of a string laid out as above is exactly the part between the first two separators |
| `Text.SplitWithoutSeparator` | main.py:49 | a string that does not contain the separator splits into itself alone |
| `Text.SplitAtFirst` | main.py:49 | for a separator that cannot overlap itself, the text before its first occurrence is the first piece and the rest is split on its own |
| `Text.SplitCharCount` | main.py:41 | splitting on one character gives exactly one piece more than the character's number of occurrences |
| `Text.ContainsChar` | main.py:41 | a one-character separator occurs exactly when that character is in the string |
| `UscisStatus.ReadCred` | main.py:39-42 | the file is accepted if and only if it holds exactly one newline; then the email is the text before it and the password the text after it, neither trimmed nor holding a newline (the text is the file as read in text mode, so `\r\n` and a lone `\r` have already become `\n`); no newline is a missing password, two or more is too many arguments with the piece count |
| `UscisStatus.ReadCredRoundTrip` | main.py:41-42 | an email and a password without newlines, written as two lines, read back as that credential |
| `UscisStatus.ReadCredOneLine` | main.py:41-42 | a file without a newline fails for the missing password |
| `UscisStatus.ReadCredTrailingNewline` | main.py:41-42 | a two-line file ending in a newline splits into three pieces and fails |
| `UscisStatus.TwoLineFileExample` | main.py:41-42 | `"a@b.com\npassword123"` reads as email `a@b.com` and password `password123` |
| `UscisStatus.OneLineFileExample` | main.py:41-42 | `"a@b.com"` fails with a missing password |
| `UscisStatus.TrailingNewlineExample` | main.py:41-42 | `"a@b.com\npassword123\n"` fails with three arguments given |
| `UscisStatus.StripAll` | main.py:50-53 | every piece is stripped, in order, and none is added or dropped |
| `UscisStatus.ExtractSegment` | main.py:49-53 | no element is an error, not a default; otherwise it succeeds if and only if the stripped text of the first element contains a newline-tab, fails with too few segments otherwise, and the result has no whitespace at either end |
| `UscisStatus.ExtractSegmentBetween` | main.py:49-53 | when the stripped text is a separator-free part, a newline-tab, a separator-free part `p`, and then nothing or a further newline-tab, the result is `p` stripped |
| `UscisStatus.ExtractSegmentHasBetween` | main.py:49-53 | every successful result is the stripped second part of such a decomposition of the stripped text |
| `UscisStatus.ExtractSegmentFirstOnly` | main.py:49 | further matching elements after the first change nothing |
| `UscisStatus.PageLayoutSegment` | main.py:49-53 | an element reading newline-tab, a heading, newline-tab, a value, newline-tab yields the value |
| `UscisStatus.ApprovedExample` | main.py:49-50 | `"\n\tCase Status\n\tApproved\n\t"` yields `"Approved"` |
| `UscisStatus.ExtractStatus` | main.py:45-54 | it succeeds exactly when both elements' extractions succeed, returns their two results, reports the status element's failure first and has both results free of surrounding whitespace |
| `UscisStatus.PageLayoutStatus` | main.py:45-54 | two elements in the page's layout yield the status and the description |
| `UscisStatus.MissingStatusElement` | main.py:49 | a page without a status element fails rather than returning a default |
| `UscisStatus.StatusUrl` | main.py:83-84 | the URL is the fixed lookup endpoint followed by the receipt number verbatim |
| `UscisStatus.StatusUrlInjective` | main.py:83-84 | different receipt numbers give different URLs |
| `UscisStatus.MakeEmail` | main.py:91 | the subject is `USCIS Status: ` followed by the status, the content is the description, it goes to the case's address and comes from the credential's address |
| `UscisStatus.MakeEmailDetermines` | main.py:26-31 | the notification determines the status, the description and both addresses |
| `UscisStatus.DeniedExample` | main.py:91 | status `Denied` with description `Your case was denied` to `x@y.com` gives subject `USCIS Status: Denied` and that body and recipient |
| `UscisStatus.CaseNotification` | main.py:86-91 | one mailed case succeeds exactly when extraction succeeds and the credential file has one newline; an extraction error comes before a credential error; on success the record is that of `MakeEmail` |

## Left out

- The HTTP GET of the lookup URL: network I/O. The model receives the element texts that the page would give.
- HTML parsing, `find_class` and `text_content`: library calls; their result is the model's `seq<string>` of element texts, one per matching element.
- Reading the secret file from disk: file I/O; `ReadCred` takes its text as `Path.read_text()` returns it, after text mode has turned `\r\n` and a lone `\r` into `\n`.
- `create_msg` and the `EmailMessage` headers and body encoding: library internals; only the plain `Email` record is modelled.
- `send_email` (SMTP over TLS to a fixed host and port, login, send): network I/O.
- Printing, `name.title()` and the timestamp from the system clock: console output, library formatting and the clock.
- The module-level `DATA` table and the loop of `main` over it: the loop only sequences I/O calls; `CaseNotification` covers the pure steps of one mailed case.
- Text.Strip: removes only space, tab, newline, carriage return, vertical tab and form feed, whereas Python's `str.strip()` removes every Unicode whitespace character.
- Text.Split: requires a non-empty separator; Python raises `ValueError` for an empty one, and the program only ever splits on `"\n"` and `"\n\t"`.
