/** Table sizes and reserved process numbers shared by the kernel, MM and FS models
    (include/sys/proc.h, include/sys/const.h). */
module Config {

  const NR_TASKS: nat := 5
  const NR_PROCS: nat := 32
  const NR_NATIVE_PROCS: nat := 4

  /** Number of slots in proc_table. */
  const NR_SLOTS: nat := 37

  /** First slot that fork may hand out. */
  const FIRST_FORKED: nat := 9

  const INTERRUPT: int := -10
  const ANY: int := 47
  const NO_TASK: int := 57
  const INIT: nat := 5
  const HARD_INT: int := 1

  /** The bits of `p_flags`; a process is runnable when none is set. */
  datatype Flag = SENDING | RECEIVING | WAITING | HANGING | FREE_SLOT

  predicate IsPid(p: int) {
    0 <= p < NR_SLOTS
  }
}
