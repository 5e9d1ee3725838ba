/**
  What a caller of the mailbox library can rely on, stated as client code that calls
  the operations one after another on a pool: exhaustion after 30 acquisitions, the
  send/receive handoff, the order of delivery, last-in-first-out reuse of a
  released mailbox and the stale state it carries.
 */
module Scenarios {
  import opened Counting
  import opened Mailboxes

  /**
    Thirty acquisitions from a new pool, with no release in between, return
    thirty different mailboxes of the arena, the last one configured first;
    the thirty-first reports exhaustion.
   */
  method ExhaustPool(maxData: int, blank: Mailbox) returns (handles: seq<nat>, last: InitResult)
    requires 0 < maxData == |blank.data|
    ensures handles == Descending(NO_MAILBOXES)
    ensures |handles| == NO_MAILBOXES && Distinct(handles)
    ensures forall k :: 0 <= k < |handles| ==> handles[k] < NO_MAILBOXES
    ensures last == Exhausted
  {
    var p := new Pool(maxData, blank);
    var r := p.MailboxInit();
    handles := [r.mbox];
    ShiftHead([], Descending(NO_MAILBOXES));
    for i := 1 to NO_MAILBOXES
      invariant p.Valid() && p.sharedMemory != null
      invariant |p.free| == NO_MAILBOXES - i
      invariant handles + p.free == Descending(NO_MAILBOXES)
    {
      ShiftHead(handles, p.free);
      r := Acquire(p);
      handles := handles + [r.mbox];
    }
    last := Acquire(p);
  }

  /** mailbox_init on a pool whose arena is built: the head of the freelist, or exhaustion. */
  method Acquire(p: Pool) returns (r: InitResult)
    requires p.Valid() && p.sharedMemory != null
    modifies p
    ensures p.Valid() && p.sharedMemory == old(p.sharedMemory)
    ensures old(p.free) == [] ==> r == Exhausted && p.free == []
    ensures old(p.free) != [] ==> r == Ok(old(p.free)[0]) && p.free == old(p.free)[1..]
  {
    r := p.MailboxInit();
  }

  /**
    The handoff on a new pool: acquire a mailbox, send (7, 3, 120), receive
    exactly that triple, release the mailbox, and acquire the same one again.
   */
  method Handoff(maxData: int, blank: Mailbox) returns (h: InitResult, got: Triple, again: InitResult)
    requires 0 < maxData == |blank.data|
    ensures h.Ok? && got == Triple(7, 3, 120) && again == h
  {
    var p := new Pool(maxData, blank);
    h := p.MailboxInit();
    p.MailboxSend(h.mbox, Triple(7, 3, 120));
    got := p.MailboxRec(h.mbox);
    var _ := p.MailboxKill(h.mbox);
    again := p.MailboxInit();
  }

  /**
    One producer and one consumer on one mailbox, alternating send and
    receive: the consumer gets every message, in the order it was sent.
   */
  method Relay(maxData: int, blank: Mailbox, msgs: seq<Triple>) returns (got: seq<Triple>)
    requires 0 < maxData == |blank.data|
    ensures got == msgs
  {
    var p, m := AcquireFromNewPool(maxData, blank);
    got := [];
    for i := 0 to |msgs|
      invariant p.Valid() && p.sharedMemory != null && fresh(p.sharedMemory)
      invariant m < NO_MAILBOXES && p.sharedMemory[m].spaceAvailable > 0
      invariant got == msgs[..i]
    {
      var x := Exchange(p, m, msgs[i]);
      got := got + [x];
    }
  }

  /** A new pool and the first mailbox acquired from it, ready for a send. */
  method AcquireFromNewPool(maxData: int, blank: Mailbox) returns (p: Pool, m: nat)
    requires 0 < maxData == |blank.data|
    ensures fresh(p) && p.Valid() && p.sharedMemory != null && fresh(p.sharedMemory)
    ensures m < NO_MAILBOXES && p.sharedMemory[m].spaceAvailable > 0
  {
    p := new Pool(maxData, blank);
    var h := p.MailboxInit();
    m := h.mbox;
  }

  /**
    One send and the receive that drains it: the triple comes back unchanged,
    and the mailbox has room again with its cursors advanced by one slot.
   */
  method Exchange(p: Pool, m: nat, msg: Triple) returns (x: Triple)
    requires p.Valid() && p.sharedMemory != null && m < NO_MAILBOXES
    requires p.sharedMemory[m].spaceAvailable > 0
    modifies p.sharedMemory
    ensures p.Valid() && x == msg
    ensures p.sharedMemory[m] == AfterRec(AfterSend(old(p.sharedMemory[m]), msg, p.maxData), p.maxData)
    ensures p.sharedMemory[m].spaceAvailable == old(p.sharedMemory[m].spaceAvailable)
    ensures forall i :: 0 <= i < NO_MAILBOXES && i != m ==> p.sharedMemory[i] == old(p.sharedMemory[i])
  {
    SendThenReceive(p.sharedMemory[m], msg, p.maxData);
    p.MailboxSend(m, msg);
    x := p.MailboxRec(m);
  }

  /**
    A mailbox released while a message is still in it is not reset: the next
    caller to acquire a mailbox gets that same one and receives the stale
    message.
   */
  method StaleReuse(maxData: int, blank: Mailbox, msg: Triple) returns (h: InitResult, again: InitResult, stale: Triple)
    requires 0 < maxData == |blank.data|
    ensures h.Ok? && again == h && stale == msg
  {
    var p := new Pool(maxData, blank);
    h := p.MailboxInit();
    p.MailboxSend(h.mbox, msg);
    var _ := p.MailboxKill(h.mbox);
    again := p.MailboxInit();
    stale := p.MailboxRec(again.mbox);
  }

  /**
    Releasing an in-use mailbox and acquiring one straight away returns the
    same mailbox and restores the freelist; of all the mailbox records only
    the released one's link has changed.
   */
  method KillThenInit(p: Pool, m: nat) returns (r: InitResult)
    requires p.Valid() && m in p.InUse()
    modifies p, p.sharedMemory
    ensures p.Valid() && r == Ok(m)
    ensures p.free == old(p.free) && p.freelist == old(p.freelist)
    ensures p.sharedMemory == old(p.sharedMemory) && p.sharedMemory != null
    ensures p.sharedMemory[m] == old(p.sharedMemory[m]).(prev := old(p.freelist))
    ensures forall i :: 0 <= i < NO_MAILBOXES && i != m ==> p.sharedMemory[i] == old(p.sharedMemory[i])
  {
    var _ := p.MailboxKill(m);
    r := p.MailboxInit();
  }
}
