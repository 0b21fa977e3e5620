# Userge message wrapper, modelled in Dafny

Userge wraps every incoming Telegram message in its own `Message` class
(`userge/core/_userge/message.py`). A plugin uses the wrapper to:

- read the arguments after the command word (`input_str`,
  `input_or_reply_str`);
- split those arguments into flags (`-x`, `-n5`) and other words (`flags`,
  `filtered_input_str`), scanning at most once per message;
- request and detect cancellation through a process-wide list of message
  ids (`cancel_the_process`, `process_is_canceled`);
- send, edit or report errors with several fallbacks:
  - `force_edit` replies when the message is someone else's;
  - `try_to_edit` returns `False` when nothing changed;
  - the `*_or_send_as_file` wrappers upload a document when the text is too
    long;
  - a result is deleted after a delay.

The model has six modules:

- `Wrappers`: `Option` and `Result`.
- `Text`: the Python string operations the wrapper relies on. These are
  `str.isspace`, `strip()`, `split()`, `split(maxsplit=1)` and
  `' '.join`, over strings as sequences of code points.
- `Flags`: the flag pattern `({prefix}[a-z]+)($|[0-9]+)?$` as a
  hand-written matcher, the key a flag is stored under (including
  `lstrip(prefix)` under `del_pre`) and the scanning loop as a left fold.
- `Msg`: the wrapped message as an immutable value. Its per-message state is
  the scan latch, the cached flag map and filtered string, and the
  cancellation latch. The `input_str` family and the scan-once `flags` and
  `filtered_input_str` properties are functions that return the updated
  message.
- `Cancel`: the cancellation list as a sequence of ids.
- `Send`: the send/edit wrappers.
  - The chat client is a *script*. The k-th client call ends with its
    status: `Success`, `AuthorRequired` (`MessageAuthorRequired`), `TooLong`
    (`MessageTooLong`), `NotModified` (`MessageNotModified`) or
    `OtherError`.
  - A wrapper run records every call it makes, with its arguments, in a
    *trace*. It then returns a value or raises the status of its last call.
  - Each wrapper is proved to do three things:
    - catch only its own error;
    - let every other error through unchanged;
    - make the fallback call exactly when the primary call raised that
      error.

Behaviours the model makes visible:

- `input_str` tests for a space character, but splits on any whitespace.
  - Arguments separated from the command only by a tab are ignored
    (`Msg.TabSeparatedArgumentsIgnored`).
  - A command followed by a single trailing space raises `IndexError`
    instead of yielding `""` (`Msg.TrailingSpaceRaises`).
- `lstrip(prefix)` strips a character set, not a prefix. With a lower-case
  prefix, `del_pre` also eats leading letters of the flag name that equal
  the prefix. Under prefix `a`, flag `aab` is stored under `b`, and `aaa`
  under the empty key (`Flags.LowerPrefixStripsLetters`).
- Cancellation requests are not deduplicated. Two requests for one id
  survive the first check (`Cancel.DuplicateRequestsOutlive`).
- The `$` inside the flag pattern could also match before a trailing
  newline. Argument words never contain whitespace, so this has no effect.

## Model

| member | source | states |
|---|---|---|
| Text.IsSpace | userge/core/_userge/message.py:64 | the whitespace `split()` and `strip()` use includes space, tab, line feed, vertical tab, form feed and carriage return, excludes ASCII letters and digits, and within ASCII is only the space and control characters |
| Text.LStrip | userge/core/_userge/message.py:64 | `lstrip()` drops exactly a leading run of whitespace; what is left does not start with whitespace |
| Text.RStrip | userge/core/_userge/message.py:64 | `rstrip()` drops exactly a trailing run of whitespace; what is left does not end with whitespace |
| Text.Strip | userge/core/_userge/message.py:64 | `strip()` leaves no whitespace at either end |
| Text.Split | userge/core/_userge/message.py:154 | every word `split()` yields is non-empty and holds no whitespace |
| Text.SplitOnce | userge/core/_userge/message.py:64 | `split(maxsplit=1)` yields at most two parts; the second exists exactly when something other than whitespace follows the first word, and it is the string itself from there on with only the leading whitespace removed |
| Text.SplitOnceWords | userge/core/_userge/message.py:64 | the first part is the first word, the second holds exactly the remaining words, and there are two parts exactly when there are at least two words |
| Text.SplitStrip | userge/core/_userge/message.py:154 | splitting a stripped string gives the same words as splitting the original |
| Text.SplitJoin | userge/core/_userge/message.py:163-165 | words joined by single spaces split back into the same words |
| Text.SplitTwo | userge/core/_userge/message.py:63-64 | two words with whitespace between them split into exactly those two words |
| Text.SplitTrailing | userge/core/_userge/message.py:63-64 | a word followed by whitespace splits into that one word |
| Text.StripJoin | userge/core/_userge/message.py:165 | a join of words is already stripped |
| Flags.IsFlag | userge/core/_userge/message.py:155-157 | a word the pattern accepts starts with the prefix and has no whitespace after it, so the pattern's `$` can only match at the end of the word |
| Flags.Name | userge/core/_userge/message.py:158 | group 1 is the prefix and its letters, taken from the start of the word |
| Flags.Digits | userge/core/_userge/message.py:158-160 | group 2 (`''` when absent) is the rest of the word after group 1, so the two groups put together give the word back; group 1 is not cut short |
| Flags.FlagMatches | userge/core/_userge/message.py:155-158 | a word the scanner takes for a flag is in the language of the pattern: the prefix, a non-empty run of `a-z` (group 1 with the prefix), then only digits (group 2) |
| Flags.MatchesFlag | userge/core/_userge/message.py:155-158 | every word in the pattern's language is taken for a flag, and its groups are exactly the letters and the digits |
| Flags.Key | userge/core/_userge/message.py:159-160 | without `del_pre` the key is group 1; with it, a suffix of group 1 whose removed start is all prefix characters and which does not start with one |
| Flags.Step | userge/core/_userge/message.py:157-163 | one loop iteration: a flag leaves the accumulated string alone, maps its key to its digits and keeps every other key's entry; any other word leaves the map alone and appends a space and itself |
| Flags.LStripChar | userge/core/_userge/message.py:159 | `lstrip(prefix)` removes every leading prefix character and stops at the first other character |
| Flags.KeyOfFlag | userge/core/_userge/message.py:159-160 | with a prefix that is not a lower-case letter, the key is group 1 as is, or with `del_pre` group 1 without the prefix, a non-empty run of letters |
| Flags.LowerPrefixStripsLetters | userge/core/_userge/message.py:159 | with a lower-case prefix and `del_pre`, the key is the flag's letters with every leading copy of the prefix letter removed, and it is empty exactly when all the letters are the prefix letter |
| Flags.Scan | userge/core/_userge/message.py:154-163 | the loop never drops a key and never shortens the accumulated string (what it computes exactly is stated by `Flags.ScanFlags` and `Flags.ScanAcc`) |
| Flags.NonFlags | userge/core/_userge/message.py:162-163 | a word is among the non-flag words exactly when it is an argument word and not a flag |
| Flags.FlagWords | userge/core/_userge/message.py:157-160 | a word is among the flag words exactly when it is an argument word and a flag |
| Flags.Partition | userge/core/_userge/message.py:154-163 | every argument word goes to exactly one side, flags or the rest; none is lost or duplicated |
| Flags.ScanFlags | userge/core/_userge/message.py:157-160 | after the loop a key holds the digits of the last flag word with that key; a later duplicate overwrites an earlier one, and keys no word carries keep their old entry |
| Flags.ScanAcc | userge/core/_userge/message.py:162-163 | after the loop the accumulated string is the old one followed by a space and each non-flag word, in order |
| Flags.FlagWordsKeys | userge/core/_userge/message.py:157-160 | a key gets a value exactly when one of the flag words, in the order they were scanned, is stored under that key |
| Flags.LastValueFound | userge/core/_userge/message.py:157-160 | a key gets a value exactly when some flag word carries that key |
| Flags.LastValueAt | userge/core/_userge/message.py:157-160 | the value is the digits of the flag word at the last index carrying the key |
| Flags.ScanSnoc | userge/core/_userge/message.py:154-163 | looping over one more word is one more loop step |
| Flags.StripSpaced | userge/core/_userge/message.py:165 | stripping the accumulated string leaves the non-flag words joined by single spaces |
| Msg.InputStr | userge/core/_userge/message.py:61-66 | text without a space character gives `""`; a successful result has no surrounding whitespace |
| Msg.InputStrIsRest | userge/core/_userge/message.py:63-64 | for text with a space: the arguments are the text itself after the command word, stripped only at both ends, so inner spaces, tabs and line breaks are kept; the read fails (`IndexError`) exactly when only whitespace follows the command word |
| Msg.InputStrWords | userge/core/_userge/message.py:63-64 | for text with a space: the read fails (`IndexError`) exactly when there are fewer than two words, and otherwise its words are the text's words after the command |
| Msg.TabSeparatedArgumentsIgnored | userge/core/_userge/message.py:63-66 | `cmd<TAB>arg` splits into two words, yet the arguments read as `""` |
| Msg.TrailingSpaceRaises | userge/core/_userge/message.py:63-64 | `cmd ` (a command then one space) raises `IndexError` |
| Msg.InputOrReplyStr | userge/core/_userge/message.py:74-79 | fails exactly when `input_str` fails; non-empty arguments pass through; empty ones give the replied-to text stripped (`""` without text) or `""` without a reply; the result has no surrounding whitespace |
| Msg.Args | userge/core/_userge/message.py:152-154 | the words the loop goes through are tokens |
| Msg.ArgsAreWordsAfterCommand | userge/core/_userge/message.py:152-154 | the loop's words are the text's words after the command word, or none when the text has no space |
| Msg.Wrap | userge/core/_userge/message.py:49-53 | a freshly wrapped message is not scanned or cancelled, and its empty caches are consistent |
| Msg.Filter | userge/core/_userge/message.py:147-171 | a scanned message is returned unchanged; a first scan fails exactly when `input_str` fails; afterwards the message is latched and only the caches changed |
| Msg.FilterComputes | userge/core/_userge/message.py:147-171 | scanning keeps the caches consistent: each key holds its last flag value, and the filtered string is the non-flag words joined by spaces |
| Msg.FlagsOf | userge/core/_userge/message.py:91-99 | `flags` fails exactly when the scan fails and returns the cached map of the scanned message |
| Msg.FilteredInputStr | userge/core/_userge/message.py:81-89 | `filtered_input_str` fails exactly when the scan fails and returns the cached string of the scanned message |
| Msg.RepeatedReads | userge/core/_userge/message.py:147-149 | the scan runs once: reading either property again, in any order, gives the same value and the same message |
| Msg.ReadsOfFreshMessage | userge/core/_userge/message.py:147-171 | on a fresh message, each flag key maps to its last value, the map's keys are exactly the keys of the flag words, and the filtered string is the non-flag words joined by spaces; it splits back into them and is stripped |
| Cancel.FirstIndex | userge/core/_userge/message.py:108 | the position found holds the id and no earlier position does |
| Cancel.RemoveFirst | userge/core/_userge/message.py:108 | `list.remove` drops one occurrence, the first, and keeps the rest in order |
| Cancel.CancelTheProcess | userge/core/_userge/message.py:118 | one more pending request for the message's id, no change for other ids, and the old list is a prefix |
| Cancel.ProcessIsCanceled | userge/core/_userge/message.py:107-111 | the answer is yes exactly when a request is pending or the flag is already set; the flag latches the answer; one request is consumed when pending; other ids are untouched |
| Cancel.CancelThenCheck | userge/core/_userge/message.py:107-118 | a request followed by a check answers yes and leaves the same multiset of ids as before the request |
| Cancel.CanceledStaysCanceled | userge/core/_userge/message.py:109-111 | once a check has said yes, later checks on that message say yes whatever the list holds |
| Cancel.DuplicateRequestsOutlive | userge/core/_userge/message.py:107-118 | two requests for one id: after the first check, another wrapper of the same message also reads as cancelled |
| Send.DeleteDelay | userge/core/_userge/message.py:289-293 | `del_in or MSG_DELETE_TIMEOUT` deletes exactly when `del_in` is positive, or zero with a positive timeout; a non-zero `del_in` is used as is |
| Send.ErrDelay | userge/core/_userge/message.py:441-442 | the error delay is positive (the given one, else 5) and the configured timeout never replaces it |
| Send.ErrorText | userge/core/_userge/message.py:24 | the error string is the marker, the text and a closing backquote |
| Send.ErrorTextRoundTrip | userge/core/_userge/message.py:24 | the text comes back out of the error string, and any string that unwraps to a text is its wrapping |
| Send.ReplyTarget | userge/core/_userge/message.py:272-276 | an explicit reply id always wins; otherwise the reply answers this message exactly when quoting, which defaults to on outside private chats |
| Send.FileTarget | userge/core/_userge/message.py:203-204 | a document answers the replied-to message if there is one, else this message |
| Send.Finish | userge/core/_userge/message.py:340-349 | after the message is out, only log forwards and the timed delete follow; the run returns the deletion result exactly when the delay is positive; every error propagates |
| Send.Reply | userge/core/_userge/message.py:272-295 | the first call sends the text to the reply target; a failing send raises at once; every error propagates; it returns a deletion exactly when the delay is positive |
| Send.Edit | userge/core/_userge/message.py:333-349 | the first call edits this message; no send or upload is made; a failing edit raises at once; every error propagates; a deletion result means the last call was the timed delete |
| Send.HappyPath | userge/core/_userge/message.py:333-349 | when all client calls succeed, `edit` and `reply` return the message, or the deletion result when the delay is positive |
| Send.ForceEdit | userge/core/_userge/message.py:390-405 | the first call is the edit; no upload; every error other than the authorship error propagates |
| Send.ForceEditFallback | userge/core/_userge/message.py:390-405 | a reply is sent exactly when `edit` raised the authorship error, right after it and to the reply target; otherwise the result is `edit`'s |
| Send.ForceEditOnRefusedEdit | userge/core/_userge/message.py:390-405 | an edit refused for authorship at the first call is followed at once by the reply |
| Send.ErrorEdit | userge/core/_userge/message.py:441-449 | the edit carries the error string; any return is the deletion result, and the last call deleted after the error delay; every error propagates |
| Send.ForceErr | userge/core/_userge/message.py:488-497 | the edit carries the error string; any return is the deletion result; only the authorship error is caught |
| Send.TryToEdit | userge/core/_userge/message.py:537-546 | never raises "not modified"; every other error propagates; no send or upload is made |
| Send.TryToEditFalseOnlyOnNotModified | userge/core/_userge/message.py:537-546 | `False` is returned exactly when `edit` raised "not modified"; otherwise the result is `edit`'s |
| Send.FileFinish | userge/core/_userge/message.py:217-223 | after the upload, only a log forward and the deletion of the command follow; it returns the sent document; every error propagates |
| Send.SendAsFile | userge/core/_userge/message.py:203-223 | the first call uploads the text, answering the file target; no message is sent; every error propagates |
| Send.EditOrSendAsFile | userge/core/_userge/message.py:588-597 | the first call is the edit; no message is sent; every error other than "too long" propagates |
| Send.EditOrSendAsFileFallback | userge/core/_userge/message.py:588-597 | a document is uploaded exactly when `edit` raised "too long", right after it; otherwise the result is `edit`'s |
| Send.ReplyOrSendAsFile | userge/core/_userge/message.py:652-664 | the first call is the reply to the reply target; every error other than "too long" propagates |
| Send.ReplyOrSendAsFileFallback | userge/core/_userge/message.py:652-664 | a document is uploaded exactly when `reply` raised "too long", right after it; otherwise the result is `reply`'s |
| Send.ForceEditOrSendAsFile | userge/core/_userge/message.py:704-720 | the first call is the edit; every error other than "too long" and the authorship error propagates; the fallback reply gets the caller's `quote` and `reply_to_message_id` |
| Send.ForceEditOrSendAsFileFallback | userge/core/_userge/message.py:704-720 | a reply, to the target the caller's `quote` and `reply_to_message_id` select, is sent exactly when `edit_or_send_as_file` raised the authorship error (from the edit or the upload); otherwise the result is that run's |

## Left out

- Client calls (`send_message`, `edit_message_text`, `send_document`,
  `fwd_msg` to the log channel, `delete`) are abstracted to the call made
  and its scripted status. Parse modes, previews, markups, notifications,
  file names and captions are not modelled.
- Send.Reply, Send.Edit: `asyncio.sleep` before a timed delete is
  recorded as a `DeleteAfter(delay)` call, with no notion of time.
- Send.SendAsFile: writing and removing the temporary file is not
  modelled; only the upload and the calls after it are.
- Send: any scripted call may fail with any status. In the client only
  edits raise "not modified", so the model is more general there.
- Logging (`LOG.info`) has no effect on results and is omitted.
- `__msg_to_dict` and the copying of the underlying pyrogram message are not
  modelled. The wrapper is built from the fields it reads (`Msg.Wrap`).
- `reply_text` and `edit_text` are aliases of `reply` and `edit`.
- `Config.MSG_DELETE_TIMEOUT` is a parameter (`timeout`) of the wrappers.
- Msg.Filter and the properties built on it accept only a single-character
  prefix that is not a regular-expression metacharacter. A longer prefix,
  or one with special meaning, changes the pattern itself.
- Msg.InputStr: the message text is assumed present. A media message whose
  `text` is `None` would make `' ' in None` raise a `TypeError`.
- Keyword arguments forwarded through `**kwargs` are modelled only where
  they are accepted: `delete_message` for the upload, and `quote` and
  `reply_to_message_id` for the reply of `force_edit_or_send_as_file`. A
  keyword that reaches a callee without such a parameter raises a Python
  `TypeError`, which is not modelled.
- Send.ForceEditOrSendAsFile: the same `**kwargs` also go to
  `edit_or_send_as_file`, and from there to `send_as_file` when the text is
  too long. There a `quote` or `reply_to_message_id` raises `TypeError` before
  the upload; the model uploads instead.
- Msg.FlagsOf: `flags` returns the cached dictionary itself, so a caller that
  changes it changes what later reads return. The model returns a value, so
  `Msg.RepeatedReads` assumes no caller does this. The order in which the
  dictionary's keys were inserted is not modelled either.
- `userge/plugins/misc/thumbnail.py` is a caller and is not part of this
  model.
