/** The send and edit wrappers and their fallbacks. Every call into the
    chat client is abstracted to how it ends (normally or with one of the
    errors the wrappers tell apart); a wrapper run is the sequence of calls
    it makes and what it returns or raises. */
module Send {
  import opened Wrappers
  import opened Msg

  /** How a call into the chat client ends. */
  datatype Status = Success | AuthorRequired | TooLong | NotModified | OtherError

  /** The client calls the wrappers make, with the arguments that matter. */
  datatype Call =
    | SendMessage(text: string, replyTo: Option<int>)
    | EditMessageText(messageId: int, text: string)
    | SendDocument(contents: string, answers: int)
    | ForwardToLog
      /** Sleep `delay` seconds, then delete the message just sent or edited. */
    | DeleteAfter(delay: int)
      /** Delete the command message after uploading a file. */
    | DeleteCommand

  datatype Event = Event(call: Call, status: Status)

  /** The status the k-th call gets; calls past the end of the script
      succeed. */
  function StatusAt(script: seq<Status>, k: nat): Status {
    if k < |script| then script[k] else Success
  }

  /** The client as the wrappers see it: a script saying how each call in
      turn ends, and the calls made so far. */
  datatype World = World(script: seq<Status>, trace: seq<Event>)

  /** The status the next call will get. */
  function Next(w: World): Status {
    StatusAt(w.script, |w.trace|)
  }

  /** Every recorded call ended as the script says. */
  ghost predicate Consistent(w: World) {
    forall k :: 0 <= k < |w.trace| ==> w.trace[k].status == StatusAt(w.script, k)
  }

  /** Makes one client call. */
  function Perform(w: World, c: Call): (w': World)
    ensures w'.script == w.script && |w'.trace| == |w.trace| + 1
    ensures w'.trace[..|w.trace|] == w.trace
    ensures w'.trace[|w.trace|] == Event(c, Next(w))
    ensures Prefix(w, w')
  {
    w.(trace := w.trace + [Event(c, Next(w))])
  }

  /** What a wrapper returns: a message object, the `True` of deleting the
      message it sent or edited, or the `False` of an edit that changed
      nothing. */
  datatype Value = Sent | Deleted | NotEdited

  datatype Outcome = Returned(value: Value) | Raised(error: Status)

  datatype Run = Run(world: World, out: Outcome)

  /** `w'` continues `w`: same script, calls only appended, and the trace
      still agreeing with the script. */
  ghost predicate Prefix(w: World, w': World) {
    && w'.script == w.script
    && |w.trace| <= |w'.trace|
    && w'.trace[..|w.trace|] == w.trace
    && (Consistent(w) ==> Consistent(w'))
  }

  /** `r` continues from `w`, and a raised error is the status of the last
      call made. */
  ghost predicate Extends(w: World, r: Run) {
    && Prefix(w, r.world)
    && (r.out.Raised? ==>
          r.out.error != Success && |r.world.trace| > 0 && r.out.error == r.world.trace[|r.world.trace| - 1].status)
  }

  /** Error `s` is never swallowed: a call of the run that ends with `s` is
      its last one, and the run raises `s`. */
  ghost predicate Propagates(w: World, r: Run, s: Status) {
    forall k :: |w.trace| <= k < |r.world.trace| && r.world.trace[k].status == s ==>
      k == |r.world.trace| - 1 && r.out == Raised(s)
  }

  /** No call between `w` and `w'` ended with `s`. */
  ghost predicate Free(w: World, w': World, s: Status) {
    forall k :: |w.trace| <= k < |w'.trace| ==> w'.trace[k].status != s
  }

  /** A `send_message` call was made between `w` and `w'`. */
  ghost predicate Sends(w: World, w': World) {
    exists k :: |w.trace| <= k < |w'.trace| && w'.trace[k].call.SendMessage?
  }

  /** A document was uploaded between `w` and `w'`. */
  ghost predicate Uploads(w: World, w': World) {
    exists k :: |w.trace| <= k < |w'.trace| && w'.trace[k].call.SendDocument?
  }

  /** Two continuations in a row make one: the calls made are those of the
      first followed by those of the second. */
  lemma Continue(w: World, w1: World, w2: World)
    requires Prefix(w, w1) && Prefix(w1, w2)
    ensures Prefix(w, w2)
    ensures forall k :: 0 <= k < |w1.trace| ==> w2.trace[k] == w1.trace[k]
    ensures Sends(w, w2) <==> Sends(w, w1) || Sends(w1, w2)
    ensures Uploads(w, w2) <==> Uploads(w, w1) || Uploads(w1, w2)
  {
    assert w2.trace[..|w.trace|] == w2.trace[..|w1.trace|][..|w.trace|];
    assert forall k :: 0 <= k < |w1.trace| ==> w2.trace[k] == w2.trace[..|w1.trace|][k];
  }

  /** A run that did not raise `s` made no call ending with `s`. */
  lemma FreeOf(w: World, r: Run, s: Status)
    requires Propagates(w, r, s) && r.out != Raised(s)
    ensures Free(w, r.world, s)
  {
  }

  /** Calls that did not end with `s`, followed by a run that propagates
      `s`, make a run that propagates `s`. */
  lemma PropagatesAfter(w: World, w': World, r: Run, s: Status)
    requires Prefix(w, w') && Free(w, w', s)
    requires Prefix(w', r.world) && Propagates(w', r, s)
    ensures Propagates(w, r, s)
  {
    Continue(w, w', r.world);
  }

  /** The delay after which a sent or edited message is deleted, as
      `del_in or MSG_DELETE_TIMEOUT` computes it: an explicit non-zero
      `del_in` wins, zero falls back to the configured timeout, and only a
      positive result deletes (the default `-1` never does). */
  function DeleteDelay(delIn: int, timeout: int): (d: int)
    ensures d > 0 <==> delIn > 0 || (delIn == 0 && timeout > 0)
    ensures d > 0 ==> d == delIn || (delIn == 0 && d == timeout)
    ensures delIn != 0 ==> d == delIn
  {
    if delIn != 0 then delIn else timeout
  }

  /** The delay an error message is deleted after by default. */
  const ErrorDeleteTimeout := 5

  /** The delay `err` and `force_err` pass on: the given one when positive,
      otherwise the default; the configured timeout never replaces it. */
  function ErrDelay(delIn: int): (d: int)
    ensures d > 0
    ensures delIn > 0 ==> d == delIn
    ensures delIn <= 0 ==> d == ErrorDeleteTimeout
    ensures forall timeout :: DeleteDelay(d, timeout) == d
  {
    if delIn > 0 then delIn else ErrorDeleteTimeout
  }

  const ErrorPrefix := "**ERROR**: `"
  const ErrorSuffix := "`"

  /** `"**ERROR**: `{}`".format(text)`: the text between the error marker
      and a closing backquote. */
  function ErrorText(text: string): (r: string)
    ensures |r| == |ErrorPrefix| + |text| + |ErrorSuffix|
    ensures r[..|ErrorPrefix|] == ErrorPrefix
    ensures r[|ErrorPrefix|..|r| - |ErrorSuffix|] == text
    ensures r[|r| - |ErrorSuffix|..] == ErrorSuffix
  {
    ErrorPrefix + text + ErrorSuffix
  }

  /** Reads the text back out of an error message, if it is one. */
  function UnwrapError(s: string): Option<string> {
    if |s| >= |ErrorPrefix| + |ErrorSuffix|
       && s[..|ErrorPrefix|] == ErrorPrefix
       && s[|s| - |ErrorSuffix|..] == ErrorSuffix
    then Some(s[|ErrorPrefix|..|s| - |ErrorSuffix|])
    else None
  }

  /** Wrapping loses nothing: the text comes back out, and whatever comes
      back out of a string wraps back to that string. */
  lemma ErrorTextRoundTrip(text: string, s: string)
    ensures UnwrapError(ErrorText(text)) == Some(text)
    ensures UnwrapError(s) == Some(text) ==> ErrorText(text) == s
  {
    if UnwrapError(s) == Some(text) {
      assert s == s[..|ErrorPrefix|] + s[|ErrorPrefix|..|s| - |ErrorSuffix|] + s[|s| - |ErrorSuffix|..];
    }
  }

  /** Which message a reply answers: an explicit id always; otherwise this
      message when quoting, and quoting defaults to on outside private
      chats. */
  function ReplyTarget(m: Message, quote: Option<bool>, replyTo: Option<int>): (r: Option<int>)
    ensures replyTo.Some? ==> r == replyTo
    ensures replyTo.None? && quote.Some? ==> (r == Some(m.id) <==> quote.value) && (r.None? <==> !quote.value)
    ensures replyTo.None? && quote.None? ==> (r == Some(m.id) <==> m.chatType != "private") && (r.None? <==> m.chatType == "private")
  {
    var q := quote.GetOr(m.chatType != "private");
    if replyTo.None? && q then Some(m.id) else replyTo
  }

  /** The message a document answers: the replied-to message if there is
      one, else this one. */
  function FileTarget(m: Message): (id: int)
    ensures m.replyTo.Some? ==> id == m.replyTo.value.id
    ensures m.replyTo.None? ==> id == m.id
  {
    match m.replyTo
    case Some(r) => r.id
    case None => m.id
  }

  /** What `reply` and `edit` do once the message is out: forward it to the
      log channel if asked, then delete it after the delay if that is
      positive. */
  function Finish(log: bool, delIn: int, timeout: int, w: World): (r: Run)
    ensures Extends(w, r)
    ensures forall k :: |w.trace| <= k < |r.world.trace| ==>
              r.world.trace[k].call == ForwardToLog || r.world.trace[k].call == DeleteAfter(DeleteDelay(delIn, timeout))
    ensures !Sends(w, r.world) && !Uploads(w, r.world)
    ensures forall s :: s != Success ==> Propagates(w, r, s)
    ensures r.out.Returned? ==> (r.out.value == Deleted <==> DeleteDelay(delIn, timeout) > 0)
    ensures r.out.Returned? ==> r.out.value != NotEdited
    ensures r.out == Returned(Deleted) ==>
              |r.world.trace| > |w.trace| &&
              r.world.trace[|r.world.trace| - 1] == Event(DeleteAfter(DeleteDelay(delIn, timeout)), Success)
  {
    var w1 := if log then Perform(w, ForwardToLog) else w;
    var s1 := if log then Next(w) else Success;
    var d := DeleteDelay(delIn, timeout);
    var r :=
      if s1 != Success then Run(w1, Raised(s1))
      else if d > 0 then
        var w2 := Perform(w1, DeleteAfter(d));
        Continue(w, w1, w2);
        Run(w2, if Next(w1) != Success then Raised(Next(w1)) else Returned(Deleted))
      else Run(w1, Returned(Sent));
    NoMessages(w, r.world);
    r
  }

  /** A stretch of calls that only forwards and deletes sends no message
      and uploads no document. */
  lemma NoMessages(w: World, w': World)
    requires forall k :: |w.trace| <= k < |w'.trace| ==>
               w'.trace[k].call.ForwardToLog? || w'.trace[k].call.DeleteAfter? || w'.trace[k].call.DeleteCommand?
    ensures !Sends(w, w') && !Uploads(w, w')
  {
  }

  /** `reply`: sends `text` to the chat, answering the reply target, then
      forwards and deletes as `Finish` says. */
  function Reply(m: Message, text: string, delIn: int, log: bool, quote: Option<bool>,
                 replyTo: Option<int>, timeout: int, w: World): (r: Run)
    ensures Extends(w, r) && |r.world.trace| > |w.trace|
    ensures r.world.trace[|w.trace|].call == SendMessage(text, ReplyTarget(m, quote, replyTo))
    ensures Sends(w, r.world) && !Uploads(w, r.world)
    ensures Next(w) != Success ==> r.out == Raised(Next(w)) && |r.world.trace| == |w.trace| + 1
    ensures forall s :: s != Success ==> Propagates(w, r, s)
    ensures r.out.Returned? ==> (r.out.value == Deleted <==> DeleteDelay(delIn, timeout) > 0)
    ensures r.out.Returned? ==> r.out.value != NotEdited
  {
    var w1 := Perform(w, SendMessage(text, ReplyTarget(m, quote, replyTo)));
    assert Sends(w, w1) by { assert w1.trace[|w.trace|].call.SendMessage?; }
    if Next(w) != Success then Run(w1, Raised(Next(w)))
    else
      var r := Finish(log, delIn, timeout, w1);
      Continue(w, w1, r.world);
      forall s | s != Success ensures Propagates(w, r, s) {
        PropagatesAfter(w, w1, r, s);
      }
      r
  }

  /** `edit`: replaces this message's text, then forwards and deletes as
      `Finish` says. */
  function Edit(m: Message, text: string, delIn: int, log: bool, timeout: int, w: World): (r: Run)
    ensures Extends(w, r) && |r.world.trace| > |w.trace|
    ensures r.world.trace[|w.trace|].call == EditMessageText(m.id, text)
    ensures !Sends(w, r.world) && !Uploads(w, r.world)
    ensures Next(w) != Success ==> r.out == Raised(Next(w)) && |r.world.trace| == |w.trace| + 1
    ensures forall s :: s != Success ==> Propagates(w, r, s)
    ensures r.out.Returned? ==> (r.out.value == Deleted <==> DeleteDelay(delIn, timeout) > 0)
    ensures r.out.Returned? ==> r.out.value != NotEdited
    ensures r.out == Returned(Deleted) ==>
              r.world.trace[|r.world.trace| - 1] == Event(DeleteAfter(DeleteDelay(delIn, timeout)), Success)
  {
    var w1 := Perform(w, EditMessageText(m.id, text));
    if Next(w) != Success then Run(w1, Raised(Next(w)))
    else
      var r := Finish(log, delIn, timeout, w1);
      Continue(w, w1, r.world);
      forall s | s != Success ensures Propagates(w, r, s) {
        PropagatesAfter(w, w1, r, s);
      }
      r
  }

  /** When every client call succeeds, `edit` and `reply` return the
      message, or the result of deleting it when the delay is positive. */
  lemma HappyPath(m: Message, text: string, delIn: int, log: bool, quote: Option<bool>,
                  replyTo: Option<int>, timeout: int, w: World)
    requires Next(w) == Success
    requires StatusAt(w.script, |w.trace| + 1) == Success && StatusAt(w.script, |w.trace| + 2) == Success
    ensures Edit(m, text, delIn, log, timeout, w).out ==
            Returned(if DeleteDelay(delIn, timeout) > 0 then Deleted else Sent)
    ensures Reply(m, text, delIn, log, quote, replyTo, timeout, w).out ==
            Returned(if DeleteDelay(delIn, timeout) > 0 then Deleted else Sent)
  {
    var w1 := Perform(w, EditMessageText(m.id, text));
    var w2 := Perform(w, SendMessage(text, ReplyTarget(m, quote, replyTo)));
    var w1' := if log then Perform(w1, ForwardToLog) else w1;
    var w2' := if log then Perform(w2, ForwardToLog) else w2;
    assert Next(w1) == Success && Next(w2) == Success;
    assert Next(w1') == Success && Next(w2') == Success;
  }

  /** `force_edit`: edits, and only when the edit is refused because this
      message is someone else's, replies instead. */
  function ForceEdit(m: Message, text: string, delIn: int, log: bool, quote: Option<bool>,
                     replyTo: Option<int>, timeout: int, w: World): (r: Run)
    ensures Extends(w, r) && |r.world.trace| > |w.trace|
    ensures r.world.trace[|w.trace|].call == EditMessageText(m.id, text)
    ensures !Uploads(w, r.world)
    ensures forall s :: s != Success && s != AuthorRequired ==> Propagates(w, r, s)
    ensures r.out.Returned? ==> (r.out.value == Deleted <==> DeleteDelay(delIn, timeout) > 0)
    ensures r.out.Returned? ==> r.out.value != NotEdited
  {
    var e := Edit(m, text, delIn, log, timeout, w);
    if e.out == Raised(AuthorRequired) then
      var r := Reply(m, text, delIn, log, quote, replyTo, timeout, e.world);
      Continue(w, e.world, r.world);
      forall s | s != Success && s != AuthorRequired ensures Propagates(w, r, s) {
        FreeOf(w, e, s);
        PropagatesAfter(w, e.world, r, s);
      }
      r
    else e
  }

  /** `force_edit` replies exactly when the edit raised the authorship
      error, right after the refused edit and to the reply target; any
      other outcome of the edit is returned or raised as it is. */
  lemma ForceEditFallback(m: Message, text: string, delIn: int, log: bool, quote: Option<bool>,
                          replyTo: Option<int>, timeout: int, w: World)
    ensures var e := Edit(m, text, delIn, log, timeout, w);
            var r := ForceEdit(m, text, delIn, log, quote, replyTo, timeout, w);
            && (Sends(w, r.world) <==> e.out == Raised(AuthorRequired))
            && (e.out != Raised(AuthorRequired) ==> r == e)
            && (e.out == Raised(AuthorRequired) ==>
                  |r.world.trace| > |e.world.trace| &&
                  r.world.trace[|e.world.trace|].call == SendMessage(text, ReplyTarget(m, quote, replyTo)))
  {
    var e := Edit(m, text, delIn, log, timeout, w);
    var r := ForceEdit(m, text, delIn, log, quote, replyTo, timeout, w);
    if e.out == Raised(AuthorRequired) {
      Continue(w, e.world, r.world);
    }
  }

  /** An edit refused at the first call is followed at once by the reply. */
  lemma ForceEditOnRefusedEdit(m: Message, text: string, delIn: int, log: bool, quote: Option<bool>,
                               replyTo: Option<int>, timeout: int, w: World)
    requires Next(w) == AuthorRequired
    ensures var r := ForceEdit(m, text, delIn, log, quote, replyTo, timeout, w);
            && |r.world.trace| >= |w.trace| + 2
            && r.world.trace[|w.trace|] == Event(EditMessageText(m.id, text), AuthorRequired)
            && r.world.trace[|w.trace| + 1].call == SendMessage(text, ReplyTarget(m, quote, replyTo))
  {
    var e := Edit(m, text, delIn, log, timeout, w);
    assert e.world == Perform(w, EditMessageText(m.id, text));
    ForceEditFallback(m, text, delIn, log, quote, replyTo, timeout, w);
    var r := ForceEdit(m, text, delIn, log, quote, replyTo, timeout, w);
    Continue(w, e.world, r.world);
  }

  /** `err`: edits the text into an error message that is always deleted,
      after the given delay if positive and five seconds otherwise, whatever
      the configured timeout. */
  function ErrorEdit(m: Message, text: string, delIn: int, log: bool, timeout: int, w: World): (r: Run)
    ensures Extends(w, r) && |r.world.trace| > |w.trace|
    ensures r.world.trace[|w.trace|].call == EditMessageText(m.id, ErrorText(text))
    ensures forall s :: s != Success ==> Propagates(w, r, s)
    ensures r.out.Returned? ==> r.out.value == Deleted
    ensures r.out.Returned? ==> r.world.trace[|r.world.trace| - 1] == Event(DeleteAfter(ErrDelay(delIn)), Success)
  {
    Edit(m, ErrorText(text), ErrDelay(delIn), log, timeout, w)
  }

  /** `force_err`: the error message through `force_edit`, with the same
      always-positive delay. */
  function ForceErr(m: Message, text: string, delIn: int, log: bool, quote: Option<bool>,
                    replyTo: Option<int>, timeout: int, w: World): (r: Run)
    ensures Extends(w, r) && |r.world.trace| > |w.trace|
    ensures r.world.trace[|w.trace|].call == EditMessageText(m.id, ErrorText(text))
    ensures forall s :: s != Success && s != AuthorRequired ==> Propagates(w, r, s)
    ensures r.out.Returned? ==> r.out.value == Deleted
  {
    ForceEdit(m, ErrorText(text), ErrDelay(delIn), log, quote, replyTo, timeout, w)
  }

  /** `try_to_edit`: edits, and turns only the "not modified" error into a
      `False` return. */
  function TryToEdit(m: Message, text: string, delIn: int, log: bool, timeout: int, w: World): (r: Run)
    ensures Extends(w, r) && |r.world.trace| > |w.trace|
    ensures r.world.trace[|w.trace|].call == EditMessageText(m.id, text)
    ensures !Sends(w, r.world) && !Uploads(w, r.world)
    ensures forall s :: s != Success && s != NotModified ==> Propagates(w, r, s)
    ensures r.out != Raised(NotModified)
  {
    var e := Edit(m, text, delIn, log, timeout, w);
    if e.out == Raised(NotModified) then Run(e.world, Returned(NotEdited)) else e
  }

  /** `try_to_edit` returns `False` exactly when the edit raised "not
      modified", and otherwise behaves as the edit. */
  lemma TryToEditFalseOnlyOnNotModified(m: Message, text: string, delIn: int, log: bool, timeout: int, w: World)
    ensures var e := Edit(m, text, delIn, log, timeout, w);
            var r := TryToEdit(m, text, delIn, log, timeout, w);
            && (r.out == Returned(NotEdited) <==> e.out == Raised(NotModified))
            && (e.out != Raised(NotModified) ==> r == e)
  {
  }

  /** What `send_as_file` does once the document is up: forward it to the
      log channel if asked, then delete the command message if asked. */
  function FileFinish(log: bool, deleteCommand: bool, w: World): (r: Run)
    ensures Extends(w, r)
    ensures forall k :: |w.trace| <= k < |r.world.trace| ==>
              r.world.trace[k].call == ForwardToLog || r.world.trace[k].call == DeleteCommand
    ensures !Sends(w, r.world) && !Uploads(w, r.world)
    ensures forall s :: s != Success ==> Propagates(w, r, s)
    ensures r.out.Returned? ==> r.out.value == Sent
  {
    var w1 := if log then Perform(w, ForwardToLog) else w;
    var s1 := if log then Next(w) else Success;
    var r :=
      if s1 != Success then Run(w1, Raised(s1))
      else if deleteCommand then
        var w2 := Perform(w1, DeleteCommand);
        Continue(w, w1, w2);
        Run(w2, if Next(w1) != Success then Raised(Next(w1)) else Returned(Sent))
      else Run(w1, Returned(Sent));
    NoMessages(w, r.world);
    r
  }

  /** `send_as_file`: uploads the text as a document answering the
      replied-to message (else this one), then forwards it and deletes the
      command message as `FileFinish` says. */
  function SendAsFile(m: Message, text: string, log: bool, deleteCommand: bool, w: World): (r: Run)
    ensures Extends(w, r) && |r.world.trace| > |w.trace|
    ensures r.world.trace[|w.trace|].call == SendDocument(text, FileTarget(m))
    ensures Uploads(w, r.world) && !Sends(w, r.world)
    ensures Next(w) != Success ==> r.out == Raised(Next(w)) && |r.world.trace| == |w.trace| + 1
    ensures forall s :: s != Success ==> Propagates(w, r, s)
    ensures r.out.Returned? ==> r.out.value == Sent
  {
    var w1 := Perform(w, SendDocument(text, FileTarget(m)));
    assert Uploads(w, w1) by { assert w1.trace[|w.trace|].call.SendDocument?; }
    if Next(w) != Success then Run(w1, Raised(Next(w)))
    else
      var r := FileFinish(log, deleteCommand, w1);
      Continue(w, w1, r.world);
      forall s | s != Success ensures Propagates(w, r, s) {
        PropagatesAfter(w, w1, r, s);
      }
      r
  }

  /** `edit_or_send_as_file`: edits, and only when the text is too long
      uploads it as a document instead (no timed deletion then). */
  function EditOrSendAsFile(m: Message, text: string, delIn: int, log: bool, deleteCommand: bool,
                            timeout: int, w: World): (r: Run)
    ensures Extends(w, r) && |r.world.trace| > |w.trace|
    ensures r.world.trace[|w.trace|].call == EditMessageText(m.id, text)
    ensures !Sends(w, r.world)
    ensures forall s :: s != Success && s != TooLong ==> Propagates(w, r, s)
  {
    var e := Edit(m, text, delIn, log, timeout, w);
    if e.out == Raised(TooLong) then
      var r := SendAsFile(m, text, log, deleteCommand, e.world);
      Continue(w, e.world, r.world);
      forall s | s != Success && s != TooLong ensures Propagates(w, r, s) {
        FreeOf(w, e, s);
        PropagatesAfter(w, e.world, r, s);
      }
      r
    else e
  }

  /** `edit_or_send_as_file` uploads exactly when the edit raised "too
      long", right after the refused edit, and otherwise behaves as the
      edit. */
  lemma EditOrSendAsFileFallback(m: Message, text: string, delIn: int, log: bool, deleteCommand: bool,
                                 timeout: int, w: World)
    ensures var e := Edit(m, text, delIn, log, timeout, w);
            var r := EditOrSendAsFile(m, text, delIn, log, deleteCommand, timeout, w);
            && (Uploads(w, r.world) <==> e.out == Raised(TooLong))
            && (e.out != Raised(TooLong) ==> r == e)
            && (e.out == Raised(TooLong) ==>
                  |r.world.trace| > |e.world.trace| &&
                  r.world.trace[|e.world.trace|].call == SendDocument(text, FileTarget(m)))
  {
    var e := Edit(m, text, delIn, log, timeout, w);
    var r := EditOrSendAsFile(m, text, delIn, log, deleteCommand, timeout, w);
    if e.out == Raised(TooLong) {
      Continue(w, e.world, r.world);
    }
  }

  /** `reply_or_send_as_file`: replies, and only when the text is too long
      uploads it as a document instead. */
  function ReplyOrSendAsFile(m: Message, text: string, delIn: int, log: bool, quote: Option<bool>,
                             replyTo: Option<int>, deleteCommand: bool, timeout: int, w: World): (r: Run)
    ensures Extends(w, r) && |r.world.trace| > |w.trace|
    ensures r.world.trace[|w.trace|].call == SendMessage(text, ReplyTarget(m, quote, replyTo))
    ensures Sends(w, r.world)
    ensures forall s :: s != Success && s != TooLong ==> Propagates(w, r, s)
  {
    var e := Reply(m, text, delIn, log, quote, replyTo, timeout, w);
    if e.out == Raised(TooLong) then
      var r := SendAsFile(m, text, log, deleteCommand, e.world);
      Continue(w, e.world, r.world);
      forall s | s != Success && s != TooLong ensures Propagates(w, r, s) {
        FreeOf(w, e, s);
        PropagatesAfter(w, e.world, r, s);
      }
      r
    else e
  }

  /** `reply_or_send_as_file` uploads exactly when the reply raised "too
      long", right after the refused reply, and otherwise behaves as the
      reply. */
  lemma ReplyOrSendAsFileFallback(m: Message, text: string, delIn: int, log: bool, quote: Option<bool>,
                                  replyTo: Option<int>, deleteCommand: bool, timeout: int, w: World)
    ensures var e := Reply(m, text, delIn, log, quote, replyTo, timeout, w);
            var r := ReplyOrSendAsFile(m, text, delIn, log, quote, replyTo, deleteCommand, timeout, w);
            && (Uploads(w, r.world) <==> e.out == Raised(TooLong))
            && (e.out != Raised(TooLong) ==> r == e)
            && (e.out == Raised(TooLong) ==>
                  |r.world.trace| > |e.world.trace| &&
                  r.world.trace[|e.world.trace|].call == SendDocument(text, FileTarget(m)))
  {
    var e := Reply(m, text, delIn, log, quote, replyTo, timeout, w);
    var r := ReplyOrSendAsFile(m, text, delIn, log, quote, replyTo, deleteCommand, timeout, w);
    if e.out == Raised(TooLong) {
      Continue(w, e.world, r.world);
    }
  }

  /** `force_edit_or_send_as_file`: `edit_or_send_as_file`, and only when
      that raises the authorship error (from the edit or from the upload
      it fell back to), `reply_or_send_as_file` with the `quote` and
      `reply_to_message_id` the caller passed along. */
  function ForceEditOrSendAsFile(m: Message, text: string, delIn: int, log: bool, quote: Option<bool>,
                                 replyTo: Option<int>, deleteCommand: bool, timeout: int, w: World): (r: Run)
    ensures Extends(w, r) && |r.world.trace| > |w.trace|
    ensures r.world.trace[|w.trace|].call == EditMessageText(m.id, text)
    ensures forall s :: s != Success && s != TooLong && s != AuthorRequired ==> Propagates(w, r, s)
  {
    var e := EditOrSendAsFile(m, text, delIn, log, deleteCommand, timeout, w);
    if e.out == Raised(AuthorRequired) then
      var r := ReplyOrSendAsFile(m, text, delIn, log, quote, replyTo, deleteCommand, timeout, e.world);
      Continue(w, e.world, r.world);
      forall s | s != Success && s != TooLong && s != AuthorRequired ensures Propagates(w, r, s) {
        FreeOf(w, e, s);
        PropagatesAfter(w, e.world, r, s);
      }
      r
    else e
  }

  /** `force_edit_or_send_as_file` sends a reply exactly when
      `edit_or_send_as_file` raised the authorship error, and otherwise
      behaves as it. */
  lemma ForceEditOrSendAsFileFallback(m: Message, text: string, delIn: int, log: bool, quote: Option<bool>,
                                      replyTo: Option<int>, deleteCommand: bool, timeout: int, w: World)
    ensures var e := EditOrSendAsFile(m, text, delIn, log, deleteCommand, timeout, w);
            var r := ForceEditOrSendAsFile(m, text, delIn, log, quote, replyTo, deleteCommand, timeout, w);
            && (Sends(w, r.world) <==> e.out == Raised(AuthorRequired))
            && (e.out != Raised(AuthorRequired) ==> r == e)
            && (e.out == Raised(AuthorRequired) ==>
                  |r.world.trace| > |e.world.trace| &&
                  r.world.trace[|e.world.trace|].call == SendMessage(text, ReplyTarget(m, quote, replyTo)))
  {
    var e := EditOrSendAsFile(m, text, delIn, log, deleteCommand, timeout, w);
    var r := ForceEditOrSendAsFile(m, text, delIn, log, quote, replyTo, deleteCommand, timeout, w);
    if e.out == Raised(AuthorRequired) {
      Continue(w, e.world, r.world);
    }
  }
}
