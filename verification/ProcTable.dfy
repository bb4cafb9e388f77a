/**
 The process table of proc/proc.c: one record per slot of `procs[]`, with the fields
 that message passing and scheduling read and write (include/proc.h). Pointers between
 slots (`msg_head`, `msg_next`) are slot numbers, and NULL is -1.
 */
module ProcTable {

  // include/proc.h, include/msg.h
  const ANY := -1
  const NULL := -1

  datatype IntStatus = NoInt | HasInt | WaitInt

  datatype ProcStatus = ProcExit | ProcRunning | ProcBlock

  /** The message record of include/msg.h; `buf` is the address of the data area. */
  datatype Msg = Msg(kind: int, device: int, debug: int, inode: int, mode: int, pid: int,
                     buf: int, cnt: int, pos: int)

  /** One slot. `msg` is the contents of the record that the slot's message pointer designates. */
  datatype Proc = Proc(takeUp: bool, status: ProcStatus, priority: nat, waiting: nat,
                       msgBlock: bool, intStatus: IntStatus, interruptId: int,
                       sendTo: int, recvFrom: int, msgHead: int, msgNext: int, msg: Msg)

  type Table = seq<Proc>

  /** The queue of every receiver, oldest sender first. */
  type Queues = seq<seq<nat>>

  predicate Runnable(p: Proc) {
    !p.msgBlock && p.takeUp
  }

  predicate Matches(wanted: int, sender: int) {
    wanted == ANY || wanted == sender
  }
}
