/** Process cancellation: a process-wide list of message ids asking to be
    cancelled, and a per-message flag that, once a request for the
    message's id has been seen, stays set. */
module Cancel {
  import opened Msg

  /** The number of pending requests for `id`. */
  function Pending(list: seq<int>, id: int): nat {
    multiset(list)[id]
  }

  /** `list.index(x)`: the position of the first occurrence of `x`. */
  function FirstIndex(list: seq<int>, x: int): (i: nat)
    requires x in list
    ensures i < |list| && list[i] == x && x !in list[..i]
    decreases |list|
  {
    if list[0] == x then 0
    else
      var i := FirstIndex(list[1..], x);
      assert list[..i + 1] == [list[0]] + list[1..][..i];
      1 + i
  }

  /** `list.remove(x)`: drops the first occurrence of `x`, keeping the order
      of everything else. */
  function RemoveFirst(list: seq<int>, x: int): (r: seq<int>)
    requires x in list
    ensures |r| == |list| - 1
    ensures multiset(r) == multiset(list) - multiset{x}
    ensures r == list[..FirstIndex(list, x)] + list[FirstIndex(list, x) + 1..]
  {
    var i := FirstIndex(list, x);
    assert list == list[..i] + [x] + list[i + 1..];
    list[..i] + list[i + 1..]
  }

  /** `cancel_the_process`: records one more request for the message's id. */
  function CancelTheProcess(list: seq<int>, m: Message): (r: seq<int>)
    ensures Pending(r, m.id) == Pending(list, m.id) + 1
    ensures forall y :: y != m.id ==> Pending(r, y) == Pending(list, y)
    ensures |r| == |list| + 1 && r[..|list|] == list
  {
    list + [m.id]
  }

  /** What checking for cancellation yields: the new list, the message with
      its latch, and the answer. */
  datatype Check = Check(list: seq<int>, message: Message, canceled: bool)

  /** `process_is_canceled`: a pending request for the message's id is
      consumed (one occurrence) and latches the message's flag; the answer
      is the latched flag. */
  function ProcessIsCanceled(list: seq<int>, m: Message): (c: Check)
    ensures c.canceled <==> m.id in list || m.processCanceled
    ensures c.message == m.(processCanceled := c.canceled)
    ensures m.id in list ==> Pending(c.list, m.id) == Pending(list, m.id) - 1
    ensures forall y :: y != m.id ==> Pending(c.list, y) == Pending(list, y)
    ensures m.id !in list ==> c.list == list
  {
    if m.id in list then Check(RemoveFirst(list, m.id), m.(processCanceled := true), true)
    else Check(list, m, m.processCanceled)
  }

  /** After a cancellation request the next check answers yes and consumes
      exactly that request: the list holds the same ids as before the
      request. */
  lemma CancelThenCheck(list: seq<int>, m: Message)
    ensures ProcessIsCanceled(CancelTheProcess(list, m), m).canceled
    ensures multiset(ProcessIsCanceled(CancelTheProcess(list, m), m).list) == multiset(list)
  {
    var l := CancelTheProcess(list, m);
    assert m.id in l by { assert l[|list|] == m.id; }
    calc {
      multiset(ProcessIsCanceled(l, m).list);
      multiset(l) - multiset{m.id};
      multiset(list) + multiset{m.id} - multiset{m.id};
      multiset(list);
    }
  }

  /** Once a check has answered yes for a message, every later check on that
      message answers yes, whatever the list holds. */
  lemma CanceledStaysCanceled(list: seq<int>, m: Message, later: seq<int>)
    requires ProcessIsCanceled(list, m).canceled
    ensures ProcessIsCanceled(later, ProcessIsCanceled(list, m).message).canceled
  {
  }

  /** Requests are not deduplicated: two requests for the same id leave one
      pending after the first check, so a second wrapper of the same
      message (with its own, unset flag) also reads as cancelled. */
  lemma DuplicateRequestsOutlive(list: seq<int>, m: Message, other: Message)
    requires other.id == m.id
    ensures var c := ProcessIsCanceled(CancelTheProcess(CancelTheProcess(list, m), m), m);
            c.canceled && ProcessIsCanceled(c.list, other).canceled
  {
    var l := CancelTheProcess(CancelTheProcess(list, m), m);
    assert Pending(l, m.id) >= 2;
    var c := ProcessIsCanceled(l, m);
    assert Pending(c.list, m.id) >= 1;
  }
}
