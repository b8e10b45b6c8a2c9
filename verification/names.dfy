/** The diagnostic name resolvers: signal numbers, errno values, si_code values and
    ptrace event numbers to display strings. Each is total: a value it does not know
    yields a fallback string that embeds the number in "%d" between a fixed prefix and
    suffix, so an unknown value is never lost from a log line. */
module KernelNames {
  import opened Options
  import opened Numerals
  import opened Signals

  /** The macro name of one of the 31 standard signals (SIGIO for the number SIGIO
      and SIGPOLL share), or None. */
  function StandardSignalName(sig: int): (name: Option<string>)
    ensures name.Some? ==> 1 <= sig <= 31 && 4 <= |name.value| && name.value[..3] == "SIG"
  {
    if sig == SIGHUP then Some("SIGHUP")
    else if sig == SIGINT then Some("SIGINT")
    else if sig == SIGQUIT then Some("SIGQUIT")
    else if sig == SIGILL then Some("SIGILL")
    else if sig == SIGTRAP then Some("SIGTRAP")
    else if sig == SIGABRT then Some("SIGABRT")
    else if sig == SIGBUS then Some("SIGBUS")
    else if sig == SIGFPE then Some("SIGFPE")
    else if sig == SIGKILL then Some("SIGKILL")
    else if sig == SIGUSR1 then Some("SIGUSR1")
    else if sig == SIGSEGV then Some("SIGSEGV")
    else if sig == SIGUSR2 then Some("SIGUSR2")
    else if sig == SIGPIPE then Some("SIGPIPE")
    else if sig == SIGALRM then Some("SIGALRM")
    else if sig == SIGTERM then Some("SIGTERM")
    else if sig == SIGSTKFLT then Some("SIGSTKFLT")
    else if sig == SIGCHLD then Some("SIGCHLD")
    else if sig == SIGCONT then Some("SIGCONT")
    else if sig == SIGSTOP then Some("SIGSTOP")
    else if sig == SIGTSTP then Some("SIGTSTP")
    else if sig == SIGTTIN then Some("SIGTTIN")
    else if sig == SIGTTOU then Some("SIGTTOU")
    else if sig == SIGURG then Some("SIGURG")
    else if sig == SIGXCPU then Some("SIGXCPU")
    else if sig == SIGXFSZ then Some("SIGXFSZ")
    else if sig == SIGVTALRM then Some("SIGVTALRM")
    else if sig == SIGPROF then Some("SIGPROF")
    else if sig == SIGWINCH then Some("SIGWINCH")
    else if sig == SIGIO then Some("SIGIO")
    else if sig == SIGPWR then Some("SIGPWR")
    else if sig == SIGSYS then Some("SIGSYS")
    else None
  }

  /** The name of a signal: "SIGRT<n>" for 32..64, the macro name of a standard
      signal, and "signal(<n>)" otherwise. */
  function SignalName(sig: int): (name: string)
    ensures 1 <= sig <= 64 ==> 4 <= |name| && name[..3] == "SIG"
    ensures !(1 <= sig <= 64) ==> 8 <= |name| && name[..7] == "signal("
  {
    if 32 <= sig <= 64 then Wrap("SIGRT", sig, "")
    else match StandardSignalName(sig)
      case Some(name) => name
      case None => if sig == 0 then "signal(0)" else Wrap("signal(", sig, ")")
  }

  /** Exactly the signals 1..31 have a macro name, and every one is "SIG" followed
      by something other than "RT". */
  lemma StandardSignalNames(sig: int)
    ensures StandardSignalName(sig).Some? <==> 1 <= sig <= 31
    ensures StandardSignalName(sig).Some? ==>
              var name := StandardSignalName(sig).value; 4 <= |name| && name[..3] == "SIG" && name[3] != 'R'
  {
  }

  lemma ZeroDecimal()
    ensures DecimalString(0) == "0"
  {
  }

  /** A signal name is the "signal(<n>)" fallback exactly when the number is neither a
      standard nor a real-time signal; the special-cased 0 prints as the fallback would. */
  lemma SignalNameFallback(sig: int)
    ensures Unwrap("signal(", ")", SignalName(sig)) == if 1 <= sig <= 64 then None else Some(sig)
    ensures !(1 <= sig <= 64) ==> SignalName(sig) == Wrap("signal(", sig, ")")
  {
    var name := SignalName(sig);
    StandardSignalNames(sig);
    if 32 <= sig <= 64 {
      assert name == "SIGRT" + DecimalString(sig) + "";
      UnwrapMismatch("signal(", ")", name, 0);
    } else if 1 <= sig <= 31 {
      assert name[..3][0] == 'S';
      UnwrapMismatch("signal(", ")", name, 0);
    } else {
      ZeroDecimal();
      UnwrapWrap("signal(", ")", sig);
    }
  }

  /** A signal name is "SIGRT<n>" exactly for the real-time signals 32..64. */
  lemma SignalNameRealtime(sig: int)
    ensures Unwrap("SIGRT", "", SignalName(sig)) == if 32 <= sig <= 64 then Some(sig) else None
  {
    var name := SignalName(sig);
    StandardSignalNames(sig);
    if 32 <= sig <= 64 {
      UnwrapWrap("SIGRT", "", sig);
    } else if 1 <= sig <= 31 {
      UnwrapMismatch("SIGRT", "", name, 3);
    } else {
      SignalNameFallback(sig);
      assert name == "signal(" + DecimalString(sig) + ")";
      UnwrapMismatch("SIGRT", "", name, 0);
    }
  }

  /** The name of an errno value, or None (a null pointer) for a value without one. */
  function ErrnoNameCstr(err: int): (name: Option<string>)
    ensures name.Some? ==> 0 <= err <= 133 && err != 41 && err != 58
  {
    match err
    case 0 => Some("SUCCESS")
    case 1 => Some("EPERM")
    case 2 => Some("ENOENT")
    case 3 => Some("ESRCH")
    case 4 => Some("EINTR")
    case 5 => Some("EIO")
    case 6 => Some("ENXIO")
    case 7 => Some("E2BIG")
    case 8 => Some("ENOEXEC")
    case 9 => Some("EBADF")
    case 10 => Some("ECHILD")
    case 11 => Some("EAGAIN")
    case 12 => Some("ENOMEM")
    case 13 => Some("EACCES")
    case 14 => Some("EFAULT")
    case 15 => Some("ENOTBLK")
    case 16 => Some("EBUSY")
    case 17 => Some("EEXIST")
    case 18 => Some("EXDEV")
    case 19 => Some("ENODEV")
    case 20 => Some("ENOTDIR")
    case 21 => Some("EISDIR")
    case 22 => Some("EINVAL")
    case 23 => Some("ENFILE")
    case 24 => Some("EMFILE")
    case 25 => Some("ENOTTY")
    case 26 => Some("ETXTBSY")
    case 27 => Some("EFBIG")
    case 28 => Some("ENOSPC")
    case 29 => Some("ESPIPE")
    case 30 => Some("EROFS")
    case 31 => Some("EMLINK")
    case 32 => Some("EPIPE")
    case 33 => Some("EDOM")
    case 34 => Some("ERANGE")
    case 35 => Some("EDEADLK")
    case 36 => Some("ENAMETOOLONG")
    case 37 => Some("ENOLCK")
    case 38 => Some("ENOSYS")
    case 39 => Some("ENOTEMPTY")
    case 40 => Some("ELOOP")
    case 42 => Some("ENOMSG")
    case 43 => Some("EIDRM")
    case 44 => Some("ECHRNG")
    case 45 => Some("EL2NSYNC")
    case 46 => Some("EL3HLT")
    case 47 => Some("EL3RST")
    case 48 => Some("ELNRNG")
    case 49 => Some("EUNATCH")
    case 50 => Some("ENOCSI")
    case 51 => Some("EL2HLT")
    case 52 => Some("EBADE")
    case 53 => Some("EBADR")
    case 54 => Some("EXFULL")
    case 55 => Some("ENOANO")
    case 56 => Some("EBADRQC")
    case 57 => Some("EBADSLT")
    case 59 => Some("EBFONT")
    case 60 => Some("ENOSTR")
    case 61 => Some("ENODATA")
    case 62 => Some("ETIME")
    case 63 => Some("ENOSR")
    case 64 => Some("ENONET")
    case 65 => Some("ENOPKG")
    case 66 => Some("EREMOTE")
    case 67 => Some("ENOLINK")
    case 68 => Some("EADV")
    case 69 => Some("ESRMNT")
    case 70 => Some("ECOMM")
    case 71 => Some("EPROTO")
    case 72 => Some("EMULTIHOP")
    case 73 => Some("EDOTDOT")
    case 74 => Some("EBADMSG")
    case 75 => Some("EOVERFLOW")
    case 76 => Some("ENOTUNIQ")
    case 77 => Some("EBADFD")
    case 78 => Some("EREMCHG")
    case 79 => Some("ELIBACC")
    case 80 => Some("ELIBBAD")
    case 81 => Some("ELIBSCN")
    case 82 => Some("ELIBMAX")
    case 83 => Some("ELIBEXEC")
    case 84 => Some("EILSEQ")
    case 85 => Some("ERESTART")
    case 86 => Some("ESTRPIPE")
    case 87 => Some("EUSERS")
    case 88 => Some("ENOTSOCK")
    case 89 => Some("EDESTADDRREQ")
    case 90 => Some("EMSGSIZE")
    case 91 => Some("EPROTOTYPE")
    case 92 => Some("ENOPROTOOPT")
    case 93 => Some("EPROTONOSUPPORT")
    case 94 => Some("ESOCKTNOSUPPORT")
    case 95 => Some("EOPNOTSUPP")
    case 96 => Some("EPFNOSUPPORT")
    case 97 => Some("EAFNOSUPPORT")
    case 98 => Some("EADDRINUSE")
    case 99 => Some("EADDRNOTAVAIL")
    case 100 => Some("ENETDOWN")
    case 101 => Some("ENETUNREACH")
    case 102 => Some("ENETRESET")
    case 103 => Some("ECONNABORTED")
    case 104 => Some("ECONNRESET")
    case 105 => Some("ENOBUFS")
    case 106 => Some("EISCONN")
    case 107 => Some("ENOTCONN")
    case 108 => Some("ESHUTDOWN")
    case 109 => Some("ETOOMANYREFS")
    case 110 => Some("ETIMEDOUT")
    case 111 => Some("ECONNREFUSED")
    case 112 => Some("EHOSTDOWN")
    case 113 => Some("EHOSTUNREACH")
    case 114 => Some("EALREADY")
    case 115 => Some("EINPROGRESS")
    case 116 => Some("ESTALE")
    case 117 => Some("EUCLEAN")
    case 118 => Some("ENOTNAM")
    case 119 => Some("ENAVAIL")
    case 120 => Some("EISNAM")
    case 121 => Some("EREMOTEIO")
    case 122 => Some("EDQUOT")
    case 123 => Some("ENOMEDIUM")
    case 124 => Some("EMEDIUMTYPE")
    case 125 => Some("ECANCELED")
    case 126 => Some("ENOKEY")
    case 127 => Some("EKEYEXPIRED")
    case 128 => Some("EKEYREVOKED")
    case 129 => Some("EKEYREJECTED")
    case 130 => Some("EOWNERDEAD")
    case 131 => Some("ENOTRECOVERABLE")
    case 132 => Some("ERFKILL")
    case 133 => Some("EHWPOISON")
    case _ => None
  }

  /** The name of an errno value, or "errno(<n>)" for a value without one. */
  function ErrnoName(err: int): (name: string)
    ensures !(0 <= err <= 133) ==> name == Wrap("errno(", err, ")")
  {
    match ErrnoNameCstr(err)
    case Some(name) => name
    case None => Wrap("errno(", err, ")")
  }

  /** Every value has a non-empty name, whether from the table or the fallback. */
  lemma ErrnoNameNonEmpty(err: int)
    ensures |ErrnoName(err)| > 0
  {
    match ErrnoNameCstr(err)
    case Some(n) => assert 0 <= err <= 133;
    case None =>
  }

  /** Zero, the "no error" value, has its own name. */
  lemma ErrnoNameZero()
    ensures ErrnoNameCstr(0).Some? && ErrnoName(0) == "SUCCESS"
  {
  }

  /** Every value of the kernel's errno range 1..133 has a name, except 41 and 58,
      which Linux leaves unused. */
  lemma ErrnoNamesCover(err: int)
    requires 0 <= err <= 133 && err != 41 && err != 58
    ensures ErrnoNameCstr(err).Some?
  {
  }

  lemma ErrnoNamesBelow(err: int)
    requires err < 0
    ensures ErrnoNameCstr(err) == None
  {
  }

  lemma ErrnoNamesAbove(err: int)
    requires 133 < err
    ensures ErrnoNameCstr(err) == None
  {
  }

  lemma ErrnoNamesGaps()
    ensures ErrnoNameCstr(41) == None && ErrnoNameCstr(58) == None
  {
  }

  /** A value without a name prints as "errno(<n>)", from which the value can be read back. */
  lemma ErrnoNameFallback(err: int)
    requires ErrnoNameCstr(err) == None
    ensures ErrnoName(err) == Wrap("errno(", err, ")")
    ensures Unwrap("errno(", ")", ErrnoName(err)) == Some(err)
  {
    UnwrapWrap("errno(", ")", err);
  }

  /** The name of an si_code value that means the same for every signal. */
  function GenericCodeName(code: int): (name: Option<string>)
    ensures name.Some? <==> code == 0 || code == 0x80 || -6 <= code <= -1 || code == -60
    ensures name.Some? ==> 4 <= |name.value| && name.value[..3] == "SI_"
  {
    if code == SI_USER then Some("SI_USER")
    else if code == SI_KERNEL then Some("SI_KERNEL")
    else if code == SI_QUEUE then Some("SI_QUEUE")
    else if code == SI_TIMER then Some("SI_TIMER")
    else if code == SI_MESGQ then Some("SI_MESGQ")
    else if code == SI_ASYNCIO then Some("SI_ASYNCIO")
    else if code == SI_SIGIO then Some("SI_SIGIO")
    else if code == SI_TKILL then Some("SI_TKILL")
    else if code == SI_ASYNCNL then Some("SI_ASYNCNL")
    else None
  }

  /** The name of an si_code value whose meaning depends on the signal. */
  function SignalCodeName(code: int, sig: int): (name: Option<string>)
    ensures name.Some? ==> 1 <= code <= 8
    ensures name.Some? ==> IsFaultSignal(sig) || sig == SIGCHLD || sig == SIGPOLL
    ensures name.Some? ==> 4 <= |name.value| && 'A' <= name.value[0] <= 'Z'
  {
    if sig == SIGSEGV then
      if code == SEGV_MAPERR then Some("SEGV_MAPERR")
      else if code == SEGV_ACCERR then Some("SEGV_ACCERR")
      else None
    else if sig == SIGTRAP then
      if code == TRAP_BRKPT then Some("TRAP_BRKPT")
      else if code == TRAP_TRACE then Some("TRAP_TRACE")
      else if code == TRAP_HWBKPT then Some("TRAP_HWBKPT")
      else None
    else if sig == SIGILL then
      if code == ILL_ILLOPC then Some("ILL_ILLOPC")
      else if code == ILL_ILLOPN then Some("ILL_ILLOPN")
      else if code == ILL_ILLADR then Some("ILL_ILLADR")
      else if code == ILL_ILLTRP then Some("ILL_ILLTRP")
      else if code == ILL_PRVOPC then Some("ILL_PRVOPC")
      else if code == ILL_PRVREG then Some("ILL_PRVREG")
      else if code == ILL_COPROC then Some("ILL_COPROC")
      else if code == ILL_BADSTK then Some("ILL_BADSTK")
      else None
    else if sig == SIGFPE then
      if code == FPE_INTDIV then Some("FPE_INTDIV")
      else if code == FPE_INTOVF then Some("FPE_INTOVF")
      else if code == FPE_FLTDIV then Some("FPE_FLTDIV")
      else if code == FPE_FLTOVF then Some("FPE_FLTOVF")
      else if code == FPE_FLTUND then Some("FPE_FLTUND")
      else if code == FPE_FLTRES then Some("FPE_FLTRES")
      else if code == FPE_FLTINV then Some("FPE_FLTINV")
      else if code == FPE_FLTSUB then Some("FPE_FLTSUB")
      else None
    else if sig == SIGBUS then
      if code == BUS_ADRALN then Some("BUS_ADRALN")
      else if code == BUS_ADRERR then Some("BUS_ADRERR")
      else if code == BUS_OBJERR then Some("BUS_OBJERR")
      else if code == BUS_MCEERR_AR then Some("BUS_MCEERR_AR")
      else if code == BUS_MCEERR_AO then Some("BUS_MCEERR_AO")
      else None
    else if sig == SIGCHLD then
      if code == CLD_EXITED then Some("CLD_EXITED")
      else if code == CLD_KILLED then Some("CLD_KILLED")
      else if code == CLD_DUMPED then Some("CLD_DUMPED")
      else if code == CLD_TRAPPED then Some("CLD_TRAPPED")
      else if code == CLD_STOPPED then Some("CLD_STOPPED")
      else if code == CLD_CONTINUED then Some("CLD_CONTINUED")
      else None
    else if sig == SIGPOLL then
      if code == POLL_IN then Some("POLL_IN")
      else if code == POLL_OUT then Some("POLL_OUT")
      else if code == POLL_MSG then Some("POLL_MSG")
      else if code == POLL_ERR then Some("POLL_ERR")
      else if code == POLL_PRI then Some("POLL_PRI")
      else if code == POLL_HUP then Some("POLL_HUP")
      else None
    else None
  }

  /** The name of an si_code value delivered with signal sig: a signal-independent
      name first, then one for that signal, else "sicode(<n>)". */
  function SicodeName(code: int, sig: int): (name: string)
    ensures 4 <= |name|
    ensures code == 0 || code == 0x80 || -6 <= code <= -1 || code == -60 ==> name[..3] == "SI_"
  {
    match GenericCodeName(code)
    case Some(name) => name
    case None =>
      match SignalCodeName(code, sig)
      case Some(name) => name
      case None => Wrap("sicode(", code, ")")
  }

  /** The si_code values that have a name, stated by ranges of the kernel's numbering. */
  predicate KnownSicode(code: int, sig: int)
  {
    || code == 0 || code == 0x80 || -6 <= code <= -1 || code == -60
    || (sig == SIGSEGV && 1 <= code <= 2)
    || (sig == SIGTRAP && (1 <= code <= 2 || code == 4))
    || ((sig == SIGILL || sig == SIGFPE) && 1 <= code <= 8)
    || (sig == SIGBUS && 1 <= code <= 5)
    || ((sig == SIGCHLD || sig == SIGPOLL) && 1 <= code <= 6)
  }

  /** Named si_code values are exactly the known ones, and no name starts like the fallback. */
  lemma SicodeNamesKnown(code: int, sig: int)
    ensures GenericCodeName(code).Some? || SignalCodeName(code, sig).Some? <==> KnownSicode(code, sig)
    ensures GenericCodeName(code).Some? ==> GenericCodeName(code).value[0] == 'S'
    ensures SignalCodeName(code, sig).Some? ==> SignalCodeName(code, sig).value[0] != 's'
  {
  }

  /** An si_code name is the "sicode(<n>)" fallback exactly when the value is unknown
      for that signal. */
  lemma SicodeNameFallback(code: int, sig: int)
    ensures Unwrap("sicode(", ")", SicodeName(code, sig)) == if KnownSicode(code, sig) then None else Some(code)
  {
    SicodeNamesKnown(code, sig);
    if KnownSicode(code, sig) {
      UnwrapMismatch("sicode(", ")", SicodeName(code, sig), 0);
    } else {
      UnwrapWrap("sicode(", ")", code);
    }
  }

  /** The signal-independent codes take precedence: their names do not depend on the signal. */
  lemma GenericCodesIgnoreSignal(code: int, sig1: int, sig2: int)
    requires code == 0 || code == 0x80 || -6 <= code <= -1 || code == -60
    ensures SicodeName(code, sig1) == SicodeName(code, sig2)
  {
  }

  const PTRACE_EVENT_FORK: int := 1
  const PTRACE_EVENT_VFORK: int := 2
  const PTRACE_EVENT_CLONE: int := 3
  const PTRACE_EVENT_EXEC: int := 4
  const PTRACE_EVENT_VFORK_DONE: int := 5
  const PTRACE_EVENT_EXIT: int := 6
  const PTRACE_EVENT_SECCOMP: int := 7
  /** The event number older kernels used for seccomp stops. */
  const PTRACE_EVENT_SECCOMP_OBSOLETE: int := 8
  const PTRACE_EVENT_STOP: int := 128

  /** The macro name of one of the nine named ptrace events, or None. */
  function PtraceEventMacroName(event: int): (name: Option<string>)
    ensures name.Some? ==> 1 <= event <= 8 || event == 128
  {
    if event == PTRACE_EVENT_FORK then Some("PTRACE_EVENT_FORK")
    else if event == PTRACE_EVENT_VFORK then Some("PTRACE_EVENT_VFORK")
    else if event == PTRACE_EVENT_CLONE then Some("PTRACE_EVENT_CLONE")
    else if event == PTRACE_EVENT_EXEC then Some("PTRACE_EVENT_EXEC")
    else if event == PTRACE_EVENT_VFORK_DONE then Some("PTRACE_EVENT_VFORK_DONE")
    else if event == PTRACE_EVENT_EXIT then Some("PTRACE_EVENT_EXIT")
    else if event == PTRACE_EVENT_SECCOMP_OBSOLETE then Some("PTRACE_EVENT_SECCOMP_OBSOLETE")
    else if event == PTRACE_EVENT_SECCOMP then Some("PTRACE_EVENT_SECCOMP")
    else if event == PTRACE_EVENT_STOP then Some("PTRACE_EVENT_STOP")
    else None
  }

  /** The name of a ptrace event, or "PTRACE_EVENT(<n>)". */
  function PtraceEventName(event: int): (name: string)
    ensures 13 <= |name| && name[..12] == "PTRACE_EVENT"
  {
    match PtraceEventMacroName(event)
    case Some(name) => name
    case None => if event == 0 then "PTRACE_EVENT(0)" else Wrap("PTRACE_EVENT(", event, ")")
  }

  /** Exactly the events 1..8 and 128 have a macro name; each reads "PTRACE_EVENT_...",
      which differs from the fallback's "PTRACE_EVENT(" at position 12. */
  lemma PtraceEventMacroNames(event: int)
    ensures PtraceEventMacroName(event).Some? <==> 1 <= event <= 8 || event == 128
    ensures PtraceEventMacroName(event).Some? ==>
              13 <= |PtraceEventMacroName(event).value| && PtraceEventMacroName(event).value[..13] == "PTRACE_EVENT_"
  {
  }

  /** An event name is the "PTRACE_EVENT(<n>)" fallback exactly when the event is not
      one of the nine named ones; the special-cased 0 prints as the fallback would. */
  lemma PtraceEventNameFallback(event: int)
    ensures Unwrap("PTRACE_EVENT(", ")", PtraceEventName(event))
            == if 1 <= event <= 8 || event == 128 then None else Some(event)
    ensures !(1 <= event <= 8 || event == 128) ==> PtraceEventName(event) == Wrap("PTRACE_EVENT(", event, ")")
  {
    PtraceEventMacroNames(event);
    if 1 <= event <= 8 || event == 128 {
      assert PtraceEventName(event)[..13][12] == '_';
      UnwrapMismatch("PTRACE_EVENT(", ")", PtraceEventName(event), 12);
    } else {
      ZeroDecimal();
      UnwrapWrap("PTRACE_EVENT(", ")", event);
    }
  }
}
