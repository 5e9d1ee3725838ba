# Mailboxes of the reversi engine, in Dafny

The reversi program's worker processes hand results to one another through
mailboxes. The mailboxes are managed by `mailbox.c`:

- **Pool.** A single shared arena holds `NO_MAILBOXES` (30) mailboxes.
  - It is built lazily by `init_memory`.
  - `mailbox_config` sets up each mailbox.
  - The mailboxes are threaded through their `prev` fields into an intrusive, last-in-first-out freelist.
  - `mailbox_init` pops the head of that list; it reports exhaustion when the list is empty.
  - `mailbox_kill` pushes a mailbox back onto the head.
- **Transfer.** Each mailbox carries a circular buffer of `MAX_MAILBOX_DATA` slots, with a write cursor `in`, a read cursor `out` and three counting semaphores.
  - `mailbox_send` stores one `(result, move_no, positions_explored)` triple and advances `in` modulo the slot count.
  - `mailbox_rec` hands back the triple at `out` and advances `out` the same way.

The model has three modules, one per file:

- **`Counting`** (`counting.dfy`): duplicate-free lists of indices, and how many indices below `n` such a list leaves out.
- **`Mailboxes`** (`mailbox.dfy`):
  - The mailbox record is the datatype `Mailbox`.
  - The operations on one record are functions: `Configured`, `AfterSend`, `AfterRec` and `Front`.
  - The process-wide state is the class `Pool`:
    - `sharedMemory` is an array of 30 records that is updated in place; it is `null` until the arena is built.
    - `freelist` is the head index.
    - The ghost sequence `free` lists the free mailboxes from the head along the `prev` links.
  - `Pool.Valid` ties `free` to the links (`FreeChain`): no index twice, the last link NULL. It also requires every record to be `WellFormed`.
  - A pointer to a mailbox is its arena index, and NULL is `-1`.
  - A semaphore is its count: a wait requires a positive count and decrements it; a signal increments it.
  - `MAX_MAILBOX_DATA` is the pool's `maxData` (any positive value).
  - What the freshly allocated shared region holds is the pool's `blank` record.
- **`Scenarios`** (`scenarios.dfy`): client code that calls the operations one after another on a new pool. It states what a caller can rely on:
  - exhaustion after 30 acquisitions;
  - the send/receive handoff;
  - delivery in order;
  - last-in-first-out reuse.

`WellFormed` is the invariant each mailbox keeps between calls:
- both cursors are slot indices;
- the mutex count is 1;
- `item_available + space_available == 1`;
- `in` is one slot ahead of `out` exactly when a message is waiting.

`mailbox.c:26-27` starts `space_available` at 1 rather than at the slot count. So at most one message is ever pending, however many slots the buffer has: each mailbox is a one-message rendezvous whose cursors rotate through the slots. The model follows the code here, so its counter invariant is `item + space == 1`, not `item + space == MAX_MAILBOX_DATA`.

## Model

| member | source | states |
|---|---|---|
| Mailboxes.Configured | mailbox.c:16-30 | a configured mailbox has both cursors at 0, slot 0 zeroed, every other slot as the shared region held it, the given `prev` link, semaphore counts 0/1/1, and nothing pending |
| Mailboxes.Descending | mailbox.c:43-51 | the freelist order after construction: all 30 indices, each once, from 29 at the head down to 0 |
| Mailboxes.Pool.constructor | mailbox.c:7-8 | before any call, there is no arena, the freelist is NULL and no mailbox is in use |
| Mailboxes.Pool.InitMemory | mailbox.c:38-53 | the first call builds a fresh arena in which mailbox i is configured with link i-1, and sets the freelist head to 29 and the list to 29..0; a later call changes nothing |
| Mailboxes.Pool.MailboxInit | mailbox.c:60-73 | builds the arena if needed; on an empty freelist it reports exhaustion and leaves the list empty; otherwise it returns the old head, the list loses its head and the new head is the returned mailbox's `prev`; no mailbox record changes; free plus in-use is 30 |
| Mailboxes.PopChain | mailbox.c:70-71 | following the head's `prev` link from a well-linked freelist gives the well-linked rest of the list, without the old head |
| Mailboxes.Pool.MailboxKill | mailbox.c:81-86 | an in-use mailbox becomes the head, its `prev` is the old head, the result is NULL, and no other field of any record changes; free plus in-use is 30 |
| Mailboxes.PushChain | mailbox.c:83-84 | linking a mailbox that is not on the freelist to the old head gives a well-linked list with that mailbox in front |
| Mailboxes.Pool.NoLeak | mailbox.c:60-86 | once the arena exists, the free mailboxes and those in use together number 30, none counted twice |
| Mailboxes.NextSlotIsMod | mailbox.c:102 | the slot after `i` among `c` slots is `(i + 1) % c` |
| Mailboxes.AfterSend | mailbox.c:93-106 | a send with room stores the triple at `in`, advances `in` to `(in + 1) % C`, leaves `out`, the link, the mutex and every other slot as they were, moves one unit from space to item, and appends the triple to the pending messages |
| Mailboxes.Pool.MailboxSend | mailbox.c:93-106 | waits on space and on the mutex, writes the slot, advances the cursor and signals the mutex and item; the result is exactly AfterSend of the old record, the other mailboxes are unchanged, and the pool stays valid |
| Mailboxes.Front | mailbox.c:121-123 | the triple a receive hands back is the one pending message |
| Mailboxes.AfterRec | mailbox.c:114-128 | a receive with an item advances `out` to `(out + 1) % C`, leaves `in`, the slots, the link and the mutex as they were, moves one unit from item to space, and leaves nothing pending |
| Mailboxes.Pool.MailboxRec | mailbox.c:114-128 | waits on item and on the mutex, reads the slot at `out`, advances the cursor and signals the mutex and space; it returns Front of the old record and leaves exactly AfterRec of it, with the other mailboxes unchanged |
| Mailboxes.Rendezvous | mailbox.c:96-97 | a send can proceed exactly when nothing is pending, and a receive exactly when one message is |
| Mailboxes.SendThenReceive | mailbox.c:93-128 | a send then a receive on a mailbox with room hands back the sent triple, leaves both cursors equal and restores the semaphore counts |
| Scenarios.ExhaustPool | mailbox.c:60-73 | thirty acquisitions from a new pool return 29, 28, ..., 0 (thirty distinct mailboxes), and the thirty-first reports exhaustion |
| Scenarios.Acquire | mailbox.c:64-72 | on a built arena, an acquisition pops the freelist head, or reports exhaustion when the list is empty |
| Scenarios.Handoff | mailbox.c:60-128 | acquire, send (7, 3, 120), receive, release and acquire again: the receive gets (7, 3, 120) and the second acquisition returns the same mailbox |
| Scenarios.Relay | mailbox.c:93-128 | alternating sends and receives on one mailbox deliver every triple, in the order sent |
| Scenarios.AcquireFromNewPool | mailbox.c:60-73 | the first acquisition from a new pool succeeds and gives a mailbox with room for a send |
| Scenarios.Exchange | mailbox.c:93-128 | one send and the receive after it return the sent triple, keep the pool valid and leave the other mailboxes unchanged |
| Scenarios.StaleReuse | mailbox.c:81-128 | a mailbox released with a message still in it is the next one acquired, and a receive on it returns that stale message |
| Scenarios.KillThenInit | mailbox.c:60-86 | a release followed by an acquisition returns the released mailbox and restores the freelist; only that mailbox's link has changed |
| Counting.PartitionSize | mailbox.c:65-85 | a duplicate-free list of indices below `n`, plus the indices it leaves out, number exactly `n` |

## Left out

- The blocking, scheduling and cross-process behaviour of `multiprocessor_wait` and `multiprocessor_signal` are not modelled. A wait is a precondition that the count is positive, followed by a decrement. There is no interleaving and no fairness.
- `_M2_multiprocessor_init`, `multiprocessor_initSharedMemory` and `multiprocessor_initSem` are foreign runtime calls.
  - The shared region becomes a freshly allocated array of 30 copies of the pool's `blank` record.
  - A semaphore becomes its initial count.
- The `printf` and `exit(1)` on exhaustion become the result `Exhausted`, with the pool left as it was. Process termination and output are not modelled.
- Pointer identity, `sizeof (mailbox)` and the struct layout are replaced by arena indices.
- mailbox.h is not part of this model:
  - `MAX_MAILBOX_DATA` becomes the positive parameter `maxData`;
  - the field types become mathematical integers for cursors and counts, and `int32` for the triple.
- Mailboxes.Pool.MailboxKill: requires the mailbox to be in use.
  - `mailbox.c` only asks this in a comment ("no process must use this mailbox").
  - Releasing a mailbox that is already free would link it into a cycle, which the freelist model cannot represent.
- Mailboxes.Pool.MailboxSend: requires a valid mailbox index of a built arena and `space_available > 0`.
  - The C code would instead block on the semaphore, or follow any pointer it is given.
- Mailboxes.Pool.MailboxRec: requires a valid mailbox index of a built arena and `item_available > 0`, for the same reason.
