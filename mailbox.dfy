/**
  A fixed pool of 30 mailboxes in one shared arena, handed out and taken back
  through an intrusive LIFO freelist, and the bounded-buffer handoff of one
  (result, move number, positions explored) triple per send/receive.

  Mailboxes are records stored in the arena array and updated in place; the
  C pointer to a mailbox is its arena index, and the NULL pointer is NULL.
  Each counting semaphore is its count: waiting on it requires a positive
  count and decrements it, signalling increments it.
 */
module Mailboxes {
  import opened Counting

  /** Number of mailboxes in the shared arena. */
  const NO_MAILBOXES: nat := 30

  /** Arena index standing for the NULL mailbox pointer. */
  const NULL: int := -1

  newtype int32 = x: int | -0x8000_0000 <= x < 0x8000_0000

  /** The payload of one transfer. */
  datatype Triple = Triple(result: int32, moveNo: int32, positionsExplored: int32)

  const ZERO: Triple := Triple(0, 0, 0)

  /**
    One mailbox: the write cursor `inIdx`, the read cursor `outIdx`, the slot
    array `data`, the freelist link `prev`, and the counts of its three
    semaphores.
   */
  datatype Mailbox = Mailbox(
    inIdx: int,
    outIdx: int,
    data: seq<Triple>,
    prev: int,
    itemAvailable: nat,
    spaceAvailable: nat,
    mutex: nat)

  /** Outcome of acquiring a mailbox: its arena index, or exhaustion of the pool. */
  datatype InitResult = Ok(mbox: nat) | Exhausted

  /** Semaphore wait, for a caller that does not block: the count must be positive. */
  function Wait(count: nat): nat
    requires count > 0
  {
    count - 1
  }

  /** Semaphore signal. */
  function Signal(count: nat): nat
  {
    count + 1
  }

  /**
    The slot after `i` in a circular buffer of `c` slots, that is (i + 1) mod c.
   */
  function NextSlot(i: int, c: int): (j: int)
    requires 0 <= i < c
    ensures 0 <= j < c
  {
    if i + 1 == c then 0 else i + 1
  }

  lemma NextSlotIsMod(i: int, c: int)
    requires 0 <= i < c
    ensures NextSlot(i, c) == (i + 1) % c
  {
  }

  /**
    The state a mailbox with `c` slots keeps between calls: both cursors are
    slot indices, the mutex is free, exactly one of "a message is waiting" and
    "there is room" holds, and the write cursor is one slot ahead of the read
    cursor exactly when a message is waiting.
   */
  predicate WellFormed(mb: Mailbox, c: int)
  {
    && 0 < c
    && |mb.data| == c
    && 0 <= mb.inIdx < c
    && 0 <= mb.outIdx < c
    && mb.itemAvailable + mb.spaceAvailable == 1
    && mb.mutex == 1
    && mb.inIdx == if mb.itemAvailable == 0 then mb.outIdx else NextSlot(mb.outIdx, c)
  }

  /**
    The messages sent and not yet received, oldest first: the slot at the
    read cursor when an item is available, nothing otherwise.
   */
  function Pending(mb: Mailbox, c: int): (q: seq<Triple>)
    requires WellFormed(mb, c)
    ensures |q| == mb.itemAvailable <= 1
  {
    if mb.itemAvailable == 0 then [] else [mb.data[mb.outIdx]]
  }

  /**
    mailbox_config: zero both cursors and the first slot, link to `prev` and
    create the semaphores with counts 0, 1 and 1. The other slots keep
    whatever the shared region held.
   */
  function Configured(mb: Mailbox, prev: int, c: int): (r: Mailbox)
    requires 0 < c == |mb.data|
    ensures WellFormed(r, c) && Pending(r, c) == []
    ensures r.inIdx == 0 && r.prev == prev
    ensures r.data[0] == ZERO && r.data[1..] == mb.data[1..]
  {
    mb.(inIdx := 0, outIdx := 0, data := mb.data[0 := ZERO], prev := prev,
        itemAvailable := 0, spaceAvailable := 1, mutex := 1)
  }

  /** The mailbox after mailbox_send has stored `msg`. */
  function AfterSend(mb: Mailbox, msg: Triple, c: int): (r: Mailbox)
    requires WellFormed(mb, c) && mb.spaceAvailable > 0
    ensures WellFormed(r, c)
    ensures Pending(r, c) == Pending(mb, c) + [msg]
    ensures r.data[mb.inIdx] == msg
    ensures forall k :: 0 <= k < c && k != mb.inIdx ==> r.data[k] == mb.data[k]
    ensures r.inIdx == (mb.inIdx + 1) % c
    ensures r.outIdx == mb.outIdx && r.prev == mb.prev && r.mutex == mb.mutex
    ensures r.spaceAvailable == mb.spaceAvailable - 1
    ensures r.itemAvailable == mb.itemAvailable + 1
  {
    NextSlotIsMod(mb.inIdx, c);
    mb.(data := mb.data[mb.inIdx := msg], inIdx := NextSlot(mb.inIdx, c),
        spaceAvailable := mb.spaceAvailable - 1, itemAvailable := mb.itemAvailable + 1)
  }

  /** The message mailbox_rec hands back: the oldest pending one. */
  function Front(mb: Mailbox, c: int): (x: Triple)
    requires WellFormed(mb, c) && mb.itemAvailable > 0
    ensures Pending(mb, c) == [x]
  {
    mb.data[mb.outIdx]
  }

  /** The mailbox after mailbox_rec has taken its message. */
  function AfterRec(mb: Mailbox, c: int): (r: Mailbox)
    requires WellFormed(mb, c) && mb.itemAvailable > 0
    ensures WellFormed(r, c)
    ensures Pending(r, c) == Pending(mb, c)[1..] == []
    ensures r.outIdx == (mb.outIdx + 1) % c
    ensures r.inIdx == mb.inIdx && r.data == mb.data && r.prev == mb.prev && r.mutex == mb.mutex
    ensures r.itemAvailable == mb.itemAvailable - 1
    ensures r.spaceAvailable == mb.spaceAvailable + 1
  {
    NextSlotIsMod(mb.outIdx, c);
    mb.(outIdx := NextSlot(mb.outIdx, c),
        itemAvailable := mb.itemAvailable - 1, spaceAvailable := mb.spaceAvailable + 1)
  }

  /**
    A send may proceed exactly when nothing is pending, and a receive exactly
    when one message is: the mailbox is a one-message rendezvous.
   */
  lemma Rendezvous(mb: Mailbox, c: int)
    requires WellFormed(mb, c)
    ensures mb.spaceAvailable > 0 <==> Pending(mb, c) == []
    ensures mb.itemAvailable > 0 <==> |Pending(mb, c)| == 1
  {
  }

  /**
    A send followed by a receive delivers the sent triple unchanged and leaves
    the semaphore counts as they were, with nothing pending.
   */
  lemma SendThenReceive(mb: Mailbox, msg: Triple, c: int)
    requires WellFormed(mb, c) && mb.spaceAvailable > 0
    ensures Front(AfterSend(mb, msg, c), c) == msg
    ensures var r := AfterRec(AfterSend(mb, msg, c), c);
      && Pending(r, c) == []
      && r.inIdx == r.outIdx
      && r.itemAvailable == mb.itemAvailable
      && r.spaceAvailable == mb.spaceAvailable
      && r.mutex == mb.mutex
  {
    var s := AfterSend(mb, msg, c);
    assert Pending(s, c) == [msg];
  }

  /** Indices 0 .. n-1 from the highest down: the order in which the freelist is first built. */
  function Descending(n: nat): (s: seq<nat>)
    ensures |s| == n && Distinct(s)
    ensures forall k :: 0 <= k < n ==> s[k] == n - 1 - k
  {
    seq(n, k requires 0 <= k < n => n - 1 - k)
  }

  /** The index after position `k` of the freelist, NULL after the last. */
  function NextFree(free: seq<nat>, k: nat): int
    requires k < |free|
  {
    if k + 1 < |free| then free[k + 1] else NULL
  }

  /**
    `free` is the list reachable from `head` through the `prev` links of the
    mailboxes in `arena`: no index twice, every index in the arena, the last
    link NULL.
   */
  ghost predicate FreeChain(arena: array<Mailbox>, free: seq<nat>, head: int)
    reads arena
  {
    && Distinct(free)
    && (forall k :: 0 <= k < |free| ==> free[k] < arena.Length)
    && head == (if free == [] then NULL else free[0])
    && (forall k {:trigger arena[free[k]]} :: 0 <= k < |free| ==> arena[free[k]].prev == NextFree(free, k))
  }

  /** Popping the head of the freelist leaves the rest of the chain, headed by the old head's link. */
  lemma PopChain(arena: array<Mailbox>, free: seq<nat>, head: int)
    requires FreeChain(arena, free, head) && free != []
    ensures FreeChain(arena, free[1..], arena[free[0]].prev)
    ensures free[0] !in free[1..]
  {
    DistinctTail(free);
    assert arena[free[0]].prev == NextFree(free, 0);
    forall k | 0 <= k < |free[1..]|
      ensures arena[free[1..][k]].prev == NextFree(free[1..], k)
    {
      assert free[1..][k] == free[k + 1];
      assert arena[free[k + 1]].prev == NextFree(free, k + 1);
      assert k + 1 < |free[1..]| ==> free[1..][k + 1] == free[k + 2];
    }
  }

  /**
    A mailbox that was not free, once linked to the old head, heads a chain
    made of itself and the old one.
   */
  lemma PushChain(arena: array<Mailbox>, free: seq<nat>, m: nat)
    requires Distinct(free) && m < arena.Length && m !in free
    requires forall k :: 0 <= k < |free| ==> free[k] < arena.Length
    requires arena[m].prev == (if free == [] then NULL else free[0])
    requires forall k {:trigger arena[free[k]]} :: 0 <= k < |free| ==> arena[free[k]].prev == NextFree(free, k)
    ensures FreeChain(arena, [m] + free, m)
  {
    var free' := [m] + free;
    forall j, k | 0 <= j < k < |free'| ensures free'[j] != free'[k] {
      if j > 0 {
        assert free'[j] == free[j - 1] && free'[k] == free[k - 1];
      }
    }
    forall k | 0 <= k < |free'|
      ensures arena[free'[k]].prev == NextFree(free', k)
    {
      if k > 0 {
        assert free'[k] == free[k - 1];
        assert arena[free[k - 1]].prev == NextFree(free, k - 1);
        assert k + 1 < |free'| ==> free'[k + 1] == free[k];
      } else {
        assert k + 1 < |free'| ==> free'[k + 1] == free[0];
      }
    }
  }

  /**
    The process-wide state of mailbox.c: `sharedMemory` (null until the arena
    is built) and the `freelist` head. `maxData` stands for MAX_MAILBOX_DATA
    and `blank` for what a mailbox of the freshly allocated shared region holds
    before it is configured; neither is visible to this model otherwise.
   */
  class Pool {
    const maxData: int
    const blank: Mailbox
    var sharedMemory: array?<Mailbox>
    var freelist: int
    /** The free mailboxes, from the head along the `prev` links. */
    ghost var free: seq<nat>

    ghost predicate Valid()
      reads this, sharedMemory
    {
      && 0 < maxData == |blank.data|
      && (sharedMemory == null ==> freelist == NULL && free == [])
      && (sharedMemory != null ==>
            && sharedMemory.Length == NO_MAILBOXES
            && (forall i :: 0 <= i < NO_MAILBOXES ==> WellFormed(sharedMemory[i], maxData))
            && FreeChain(sharedMemory, free, freelist))
    }

    /** Mailboxes handed out and not yet returned. */
    ghost function InUse(): set<nat>
      reads this
    {
      if sharedMemory == null then {} else Below(NO_MAILBOXES) - Elements(free)
    }

    /** Every mailbox of the arena is as mailbox_config left it, linked to its predecessor. */
    ghost predicate FreshArena()
      reads this, sharedMemory
    {
      && 0 < maxData == |blank.data|
      && sharedMemory != null
      && sharedMemory.Length == NO_MAILBOXES
      && forall i :: 0 <= i < NO_MAILBOXES ==> sharedMemory[i] == Configured(blank, i - 1, maxData)
    }

    constructor (maxData: int, blank: Mailbox)
      requires 0 < maxData == |blank.data|
      ensures Valid() && sharedMemory == null && InUse() == {}
      ensures this.maxData == maxData && this.blank == blank
    {
      this.maxData := maxData;
      this.blank := blank;
      sharedMemory := null;
      freelist := NULL;
      free := [];
    }

    /**
      init_memory: the first call builds the arena and threads every mailbox
      onto the freelist, the last one configured at the head; later calls
      change nothing.
     */
    method InitMemory()
      requires Valid()
      modifies this
      ensures Valid() && sharedMemory != null
      ensures old(sharedMemory) == null ==>
        fresh(sharedMemory) && FreshArena()
        && freelist == NO_MAILBOXES - 1 && free == Descending(NO_MAILBOXES)
      ensures old(sharedMemory) != null ==> unchanged(this) && unchanged(sharedMemory)
    {
      if sharedMemory == null {
        var b := blank;
        var mbox := new Mailbox[NO_MAILBOXES](_ => b);
        var prev := NULL;
        for i := 0 to NO_MAILBOXES
          invariant prev == i - 1
          invariant forall k :: 0 <= k < i ==> mbox[k] == Configured(b, k - 1, maxData)
          invariant forall k :: i <= k < NO_MAILBOXES ==> mbox[k] == b
        {
          mbox[i] := Configured(mbox[i], prev, maxData);
          prev := i;
        }
        sharedMemory := mbox;
        freelist := prev;
        free := Descending(NO_MAILBOXES);
      }
    }

    /**
      mailbox_init: build the arena if need be, then pop the head of the
      freelist, or report exhaustion when the freelist is empty. No mailbox
      record changes.
     */
    method MailboxInit() returns (r: InitResult)
      requires Valid()
      modifies this
      ensures Valid() && sharedMemory != null
      ensures old(sharedMemory) == null ==> fresh(sharedMemory) && FreshArena()
      ensures old(sharedMemory) != null ==> sharedMemory == old(sharedMemory) && unchanged(sharedMemory)
      ensures var before := old(if sharedMemory == null then Descending(NO_MAILBOXES) else free);
        if before == [] then r == Exhausted && free == []
        else r == Ok(before[0]) && free == before[1..]
      ensures r.Ok? ==> r.mbox in InUse() && freelist == sharedMemory[r.mbox].prev
      ensures |free| + |InUse()| == NO_MAILBOXES
    {
      InitMemory();
      if freelist == NULL {
        NoLeak();
        return Exhausted;
      }
      var mbox := freelist;
      PopChain(sharedMemory, free, freelist);
      freelist := sharedMemory[mbox].prev;
      free := free[1..];
      r := Ok(mbox);
      NoLeak();
    }

    /**
      mailbox_kill: push an in-use mailbox back onto the freelist head and
      return NULL. Only its link changes; cursors, slots and semaphore counts
      are kept as they are.
     */
    method MailboxKill(m: nat) returns (r: int)
      requires Valid() && m in InUse()
      modifies this, sharedMemory
      ensures Valid() && sharedMemory == old(sharedMemory) && sharedMemory != null
      ensures free == [m] + old(free) && freelist == m
      ensures sharedMemory[m] == old(sharedMemory[m]).(prev := old(freelist))
      ensures forall i :: 0 <= i < NO_MAILBOXES && i != m ==> sharedMemory[i] == old(sharedMemory[i])
      ensures r == NULL
      ensures |free| + |InUse()| == NO_MAILBOXES
    {
      sharedMemory[m] := sharedMemory[m].(prev := freelist);
      forall k | 0 <= k < |free| ensures sharedMemory[free[k]].prev == NextFree(free, k) {
        assert free[k] != m && old(sharedMemory[free[k]]).prev == NextFree(free, k);
      }
      PushChain(sharedMemory, free, m);
      freelist := m;
      free := [m] + free;
      r := NULL;
      NoLeak();
    }

    /**
      mailbox_send: wait for room and for the mutex, store the triple at the
      write cursor, advance it modulo the slot count, signal the mutex and
      signal that an item is available.
     */
    method MailboxSend(m: nat, msg: Triple)
      requires Valid() && sharedMemory != null && m < NO_MAILBOXES
      requires sharedMemory[m].spaceAvailable > 0
      modifies sharedMemory
      ensures Valid()
      ensures sharedMemory[m] == AfterSend(old(sharedMemory[m]), msg, maxData)
      ensures forall i :: 0 <= i < NO_MAILBOXES && i != m ==> sharedMemory[i] == old(sharedMemory[i])
    {
      var mb := sharedMemory[m];
      mb := mb.(spaceAvailable := Wait(mb.spaceAvailable));
      mb := mb.(mutex := Wait(mb.mutex));
      mb := mb.(data := mb.data[mb.inIdx := msg]);
      mb := mb.(inIdx := (mb.inIdx + 1) % maxData);
      mb := mb.(mutex := Signal(mb.mutex));
      mb := mb.(itemAvailable := Signal(mb.itemAvailable));
      NextSlotIsMod(sharedMemory[m].inIdx, maxData);
      assert mb == AfterSend(sharedMemory[m], msg, maxData);
      sharedMemory[m] := mb;
      forall k | 0 <= k < |free| ensures sharedMemory[free[k]].prev == NextFree(free, k) {
        assert old(sharedMemory[free[k]]).prev == NextFree(free, k);
      }
    }

    /**
      mailbox_rec: wait for an item and for the mutex, read the triple at the
      read cursor, advance it modulo the slot count, signal the mutex and
      signal that space is available.
     */
    method MailboxRec(m: nat) returns (msg: Triple)
      requires Valid() && sharedMemory != null && m < NO_MAILBOXES
      requires sharedMemory[m].itemAvailable > 0
      modifies sharedMemory
      ensures Valid()
      ensures msg == Front(old(sharedMemory[m]), maxData)
      ensures sharedMemory[m] == AfterRec(old(sharedMemory[m]), maxData)
      ensures forall i :: 0 <= i < NO_MAILBOXES && i != m ==> sharedMemory[i] == old(sharedMemory[i])
    {
      var mb := sharedMemory[m];
      mb := mb.(itemAvailable := Wait(mb.itemAvailable));
      mb := mb.(mutex := Wait(mb.mutex));
      msg := mb.data[mb.outIdx];
      mb := mb.(outIdx := (mb.outIdx + 1) % maxData);
      mb := mb.(mutex := Signal(mb.mutex));
      mb := mb.(spaceAvailable := Signal(mb.spaceAvailable));
      NextSlotIsMod(sharedMemory[m].outIdx, maxData);
      assert mb == AfterRec(sharedMemory[m], maxData);
      sharedMemory[m] := mb;
      forall k | 0 <= k < |free| ensures sharedMemory[free[k]].prev == NextFree(free, k) {
        assert old(sharedMemory[free[k]]).prev == NextFree(free, k);
      }
    }

    /**
      Once the arena exists, the free mailboxes and the ones in use together
      are all NO_MAILBOXES of them, none counted twice.
     */
    lemma NoLeak()
      requires Valid() && sharedMemory != null
      ensures |free| + |InUse()| == NO_MAILBOXES
    {
      PartitionSize(free, NO_MAILBOXES);
    }
  }
}
