/** The Linux signal numbers and si_code values the translator and the name
    resolvers switch on (the generic numbering shared by x86, x86-64 and AArch64). */
module Signals {

  const SIGHUP: int := 1
  const SIGINT: int := 2
  const SIGQUIT: int := 3
  const SIGILL: int := 4
  const SIGTRAP: int := 5
  const SIGABRT: int := 6
  const SIGBUS: int := 7
  const SIGFPE: int := 8
  const SIGKILL: int := 9
  const SIGUSR1: int := 10
  const SIGSEGV: int := 11
  const SIGUSR2: int := 12
  const SIGPIPE: int := 13
  const SIGALRM: int := 14
  const SIGTERM: int := 15
  const SIGSTKFLT: int := 16
  const SIGCHLD: int := 17
  const SIGCONT: int := 18
  const SIGSTOP: int := 19
  const SIGTSTP: int := 20
  const SIGTTIN: int := 21
  const SIGTTOU: int := 22
  const SIGURG: int := 23
  const SIGXCPU: int := 24
  const SIGXFSZ: int := 25
  const SIGVTALRM: int := 26
  const SIGPROF: int := 27
  const SIGWINCH: int := 28
  /** SIGIO and SIGPOLL are the same signal. */
  const SIGIO: int := 29
  const SIGPOLL: int := 29
  const SIGPWR: int := 30
  const SIGSYS: int := 31

  /** si_code values that do not depend on the signal. */
  const SI_USER: int := 0
  const SI_KERNEL: int := 0x80
  const SI_QUEUE: int := -1
  const SI_TIMER: int := -2
  const SI_MESGQ: int := -3
  const SI_ASYNCIO: int := -4
  const SI_SIGIO: int := -5
  const SI_TKILL: int := -6
  const SI_ASYNCNL: int := -60

  /** si_code values specific to one signal. */
  const SEGV_MAPERR: int := 1
  const SEGV_ACCERR: int := 2
  const TRAP_BRKPT: int := 1
  const TRAP_TRACE: int := 2
  const TRAP_HWBKPT: int := 4
  const ILL_ILLOPC: int := 1
  const ILL_ILLOPN: int := 2
  const ILL_ILLADR: int := 3
  const ILL_ILLTRP: int := 4
  const ILL_PRVOPC: int := 5
  const ILL_PRVREG: int := 6
  const ILL_COPROC: int := 7
  const ILL_BADSTK: int := 8
  const FPE_INTDIV: int := 1
  const FPE_INTOVF: int := 2
  const FPE_FLTDIV: int := 3
  const FPE_FLTOVF: int := 4
  const FPE_FLTUND: int := 5
  const FPE_FLTRES: int := 6
  const FPE_FLTINV: int := 7
  const FPE_FLTSUB: int := 8
  const BUS_ADRALN: int := 1
  const BUS_ADRERR: int := 2
  const BUS_OBJERR: int := 3
  const BUS_MCEERR_AR: int := 4
  const BUS_MCEERR_AO: int := 5
  const CLD_EXITED: int := 1
  const CLD_KILLED: int := 2
  const CLD_DUMPED: int := 3
  const CLD_TRAPPED: int := 4
  const CLD_STOPPED: int := 5
  const CLD_CONTINUED: int := 6
  const POLL_IN: int := 1
  const POLL_OUT: int := 2
  const POLL_MSG: int := 3
  const POLL_ERR: int := 4
  const POLL_PRI: int := 5
  const POLL_HUP: int := 6

  /** The five synchronous fault signals; their siginfo payloads share one layout. */
  predicate IsFaultSignal(signo: int)
  {
    signo == SIGILL || signo == SIGFPE || signo == SIGSEGV || signo == SIGBUS || signo == SIGTRAP
  }
}
