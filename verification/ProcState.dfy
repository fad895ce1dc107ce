/** include/proc.h: the states of a process. */
module ProcState {
  datatype PState = UNUSED | RUNNABLE | SLEEPING | ZOMBIE | RUNNING
}
