/** The translator: convert_to_native_siginfo_arch and its dispatcher
    convert_to_native_siginfo. The result record is built in place, step by step,
    as the source builds its local `result`. */
module SigInfoConvert {
  import opened Bytes
  import opened Options
  import opened Signals
  import opened SigInfo

  /** The outcome of a conversion. WrongSize stands for the fatal "Siginfo has
      wrong size" abort, taken before any byte of the input is looked at. */
  datatype Conversion = Converted(bytes: seq<Byte>) | WrongSize

  /** The per-architecture layouts, and which of them is the native one. */
  datatype Abi = Abi(profiles: map<SupportedArch, Profile>, native: SupportedArch)

  ghost predicate AbiValid(abi: Abi)
  {
    forall a: SupportedArch :: a in abi.profiles && abi.profiles[a].arch == a
      && WellFormed(abi.profiles[a]) && MembersDisjoint(abi.profiles[a])
  }

  /** Stores bs into a at offset: one integer assignment (or one memcpy/memset). */
  method Store(a: array<Byte>, offset: nat, bs: seq<Byte>)
    requires offset + |bs| <= a.Length
    modifies a
    ensures a[..] == Splice(old(a[..]), offset, bs)
  {
    forall k | 0 <= k < |bs| {
      a[offset + k] := bs[k];
    }
    SpliceContents(old(a[..]), offset, bs);
    assert a[..] == old(a[..])[..offset] + bs + old(a[..])[offset + |bs|..];
  }

  /** SI_COPY(f): assigns field f of the source record to field f of the result,
      converting it to the native width. */
  method CopyField(result: array<Byte>, src: Profile, native: Profile, data: seq<Byte>, f: Field)
    requires Fits(src, f, |data|) && Fits(native, f, result.Length)
    modifies result
    ensures result[..] == Stored(old(result[..]), src, native, data, f)
  {
    Store(result, native.slots[f].offset,
          Resize(data[src.slots[f].offset .. src.slots[f].offset + src.slots[f].width], native.slots[f].width, IsSigned(f)));
  }


  /** convert_to_native_siginfo_arch<Arch>: translates the raw siginfo_t bytes of
      the architecture laid out by src into the native layout. stale is what the
      native result storage holds before it is written (the source leaves its local
      uninitialised). */
  method ConvertArch(src: Profile, native: Profile, data: seq<Byte>, stale: seq<Byte>) returns (r: Conversion)
    requires WellFormed(src) && WellFormed(native) && MembersDisjoint(native)
    requires src.arch == native.arch ==> src == native
    requires |stale| == native.size
    ensures r.WrongSize? <==> |data| != src.size
    ensures r.Converted? && src.arch == native.arch ==> r.bytes == data
    ensures r.Converted? && src.arch != native.arch ==> IsTranslation(src, native, data, stale, r.bytes)
  {
    if |data| != src.size {
      return WrongSize;
    }
    if src.arch == native.arch {
      // memcpy of the whole record: no field is interpreted.
      return Converted(data);
    }
    var result := NewResult(src, native, data, stale);
    ghost var cleared := result[..];
    ClearedFilled(src, native, data, stale);
    assert result[0..4] == data[0..4] && result[8..12] == data[8..12];
    var code := Signed(result[8..12]);
    var signo := Signed(result[0..4]);
    CopySelected(result, src, native, data, signo, code);
    CopiedTranslates(cleared, src, native, data, stale);
    return Converted(result[..]);
  }

  /** The translated path up to the switch: a native record holding the source
      header, stale alignment bytes and a zeroed payload. */
  method NewResult(src: Profile, native: Profile, data: seq<Byte>, stale: seq<Byte>) returns (result: array<Byte>)
    requires WellFormed(native) && |data| >= HeaderSize && |stale| == native.size
    ensures fresh(result)
    ensures result[..] == Cleared(stale, native, data)
  {
    // The uninitialised local: whatever the storage held before.
    result := new Byte[native.size];
    forall i | 0 <= i < native.size {
      result[i] := stale[i];
    }
    assert result[..] == stale;
    // Header: three int assignments.
    Store(result, 0, data[0..4]);
    Store(result, 4, data[4..8]);
    Store(result, 8, data[8..12]);
    // memset of the whole payload.
    Store(result, native.payloadOffset, Fill(0, native.size - native.payloadOffset));
  }


  /** The switch of convert_to_native_siginfo_arch: copies the fields of the union
      member that (signo, code) selects. */
  method CopySelected(result: array<Byte>, src: Profile, native: Profile, data: seq<Byte>, signo: int, code: int)
    requires WellFormed(src) && WellFormed(native) && |data| == src.size && result.Length == native.size
    modifies result
    ensures result[..] == Copied(old(result[..]), src, native, data, Select(signo, code))
  {
    if code <= 0 {
      if code == SI_USER {
        CopyKill(result, src, native, data);
      } else if code == SI_QUEUE || code == SI_MESGQ {
        CopyRt(result, src, native, data);
      } else if code == SI_TIMER {
        CopyTimer(result, src, native, data);
      }
    } else {
      if signo == SIGCHLD {
        CopySigChld(result, src, native, data);
      } else if signo == SIGILL || signo == SIGFPE || signo == SIGSEGV || signo == SIGBUS || signo == SIGTRAP {
        CopySigFault(result, src, native, data);
      } else if signo == SIGPOLL {
        CopySigPoll(result, src, native, data);
      } else if signo == SIGSYS {
        CopySigSys(result, src, native, data);
      }
    }
  }

  /** The case SI_USER: the _kill member. */
  method CopyKill(result: array<Byte>, src: Profile, native: Profile, data: seq<Byte>)
    requires WellFormed(src) && WellFormed(native) && |data| == src.size && result.Length == native.size
    modifies result
    ensures result[..] == Copied(old(result[..]), src, native, data, Some(Kill))
  {
    ghost var cleared := result[..];
    ghost var before0 := result[..];
    CopyField(result, src, native, data, KillPid);
    CopiedPrefixStep(cleared, src, native, data, Members(Kill), 0, before0, result[..]);
    ghost var before1 := result[..];
    CopyField(result, src, native, data, KillUid);
    CopiedPrefixStep(cleared, src, native, data, Members(Kill), 1, before1, result[..]);
  }

  /** The case SI_QUEUE and SI_MESGQ: the _rt member. */
  method CopyRt(result: array<Byte>, src: Profile, native: Profile, data: seq<Byte>)
    requires WellFormed(src) && WellFormed(native) && |data| == src.size && result.Length == native.size
    modifies result
    ensures result[..] == Copied(old(result[..]), src, native, data, Some(Rt))
  {
    ghost var cleared := result[..];
    ghost var before0 := result[..];
    CopyField(result, src, native, data, RtPid);
    CopiedPrefixStep(cleared, src, native, data, Members(Rt), 0, before0, result[..]);
    ghost var before1 := result[..];
    CopyField(result, src, native, data, RtUid);
    CopiedPrefixStep(cleared, src, native, data, Members(Rt), 1, before1, result[..]);
    ghost var before2 := result[..];
    CopyField(result, src, native, data, RtSigval);
    CopiedPrefixStep(cleared, src, native, data, Members(Rt), 2, before2, result[..]);
  }

  /** The case SI_TIMER: the _timer member. */
  method CopyTimer(result: array<Byte>, src: Profile, native: Profile, data: seq<Byte>)
    requires WellFormed(src) && WellFormed(native) && |data| == src.size && result.Length == native.size
    modifies result
    ensures result[..] == Copied(old(result[..]), src, native, data, Some(Timer))
  {
    ghost var cleared := result[..];
    ghost var before0 := result[..];
    CopyField(result, src, native, data, TimerTid);
    CopiedPrefixStep(cleared, src, native, data, Members(Timer), 0, before0, result[..]);
    ghost var before1 := result[..];
    CopyField(result, src, native, data, TimerOverrun);
    CopiedPrefixStep(cleared, src, native, data, Members(Timer), 1, before1, result[..]);
    ghost var before2 := result[..];
    CopyField(result, src, native, data, TimerSigval);
    CopiedPrefixStep(cleared, src, native, data, Members(Timer), 2, before2, result[..]);
  }

  /** The case SIGCHLD: the _sigchld member. */
  method CopySigChld(result: array<Byte>, src: Profile, native: Profile, data: seq<Byte>)
    requires WellFormed(src) && WellFormed(native) && |data| == src.size && result.Length == native.size
    modifies result
    ensures result[..] == Copied(old(result[..]), src, native, data, Some(SigChld))
  {
    ghost var cleared := result[..];
    ghost var before0 := result[..];
    CopyField(result, src, native, data, ChldPid);
    CopiedPrefixStep(cleared, src, native, data, Members(SigChld), 0, before0, result[..]);
    ghost var before1 := result[..];
    CopyField(result, src, native, data, ChldUid);
    CopiedPrefixStep(cleared, src, native, data, Members(SigChld), 1, before1, result[..]);
    ghost var before2 := result[..];
    CopyField(result, src, native, data, ChldStatus);
    CopiedPrefixStep(cleared, src, native, data, Members(SigChld), 2, before2, result[..]);
    ghost var before3 := result[..];
    CopyField(result, src, native, data, ChldStime);
    CopiedPrefixStep(cleared, src, native, data, Members(SigChld), 3, before3, result[..]);
    ghost var before4 := result[..];
    CopyField(result, src, native, data, ChldUtime);
    CopiedPrefixStep(cleared, src, native, data, Members(SigChld), 4, before4, result[..]);
  }

  /** The cases SIGILL, SIGFPE, SIGSEGV, SIGBUS and SIGTRAP: the _sigfault member. */
  method CopySigFault(result: array<Byte>, src: Profile, native: Profile, data: seq<Byte>)
    requires WellFormed(src) && WellFormed(native) && |data| == src.size && result.Length == native.size
    modifies result
    ensures result[..] == Copied(old(result[..]), src, native, data, Some(SigFault))
  {
    ghost var cleared := result[..];
    ghost var before0 := result[..];
    CopyField(result, src, native, data, FaultAddr);
    CopiedPrefixStep(cleared, src, native, data, Members(SigFault), 0, before0, result[..]);
    ghost var before1 := result[..];
    CopyField(result, src, native, data, FaultAddrLsb);
    CopiedPrefixStep(cleared, src, native, data, Members(SigFault), 1, before1, result[..]);
    ghost var before2 := result[..];
    CopyField(result, src, native, data, FaultLower);
    CopiedPrefixStep(cleared, src, native, data, Members(SigFault), 2, before2, result[..]);
    ghost var before3 := result[..];
    CopyField(result, src, native, data, FaultUpper);
    CopiedPrefixStep(cleared, src, native, data, Members(SigFault), 3, before3, result[..]);
  }

  /** The case SIGPOLL: the _sigpoll member. */
  method CopySigPoll(result: array<Byte>, src: Profile, native: Profile, data: seq<Byte>)
    requires WellFormed(src) && WellFormed(native) && |data| == src.size && result.Length == native.size
    modifies result
    ensures result[..] == Copied(old(result[..]), src, native, data, Some(SigPoll))
  {
    ghost var cleared := result[..];
    ghost var before0 := result[..];
    CopyField(result, src, native, data, PollBand);
    CopiedPrefixStep(cleared, src, native, data, Members(SigPoll), 0, before0, result[..]);
    ghost var before1 := result[..];
    CopyField(result, src, native, data, PollFd);
    CopiedPrefixStep(cleared, src, native, data, Members(SigPoll), 1, before1, result[..]);
  }

  /** The case SIGSYS: the _sigsys member. */
  method CopySigSys(result: array<Byte>, src: Profile, native: Profile, data: seq<Byte>)
    requires WellFormed(src) && WellFormed(native) && |data| == src.size && result.Length == native.size
    modifies result
    ensures result[..] == Copied(old(result[..]), src, native, data, Some(SigSys))
  {
    ghost var cleared := result[..];
    ghost var before0 := result[..];
    CopyField(result, src, native, data, SysCallAddr);
    CopiedPrefixStep(cleared, src, native, data, Members(SigSys), 0, before0, result[..]);
    ghost var before1 := result[..];
    CopyField(result, src, native, data, SysSyscall);
    CopiedPrefixStep(cleared, src, native, data, Members(SigSys), 1, before1, result[..]);
    ghost var before2 := result[..];
    CopyField(result, src, native, data, SysArch);
    CopiedPrefixStep(cleared, src, native, data, Members(SigSys), 2, before2, result[..]);
  }

  /** convert_to_native_siginfo: selects the source layout by the architecture tag
      and translates. */
  method ConvertToNative(abi: Abi, arch: SupportedArch, data: seq<Byte>, stale: seq<Byte>) returns (r: Conversion)
    requires AbiValid(abi)
    requires |stale| == abi.profiles[abi.native].size
    ensures r.WrongSize? <==> |data| != abi.profiles[arch].size
    ensures r.Converted? && arch == abi.native ==> r.bytes == data
    ensures r.Converted? && arch != abi.native ==>
              IsTranslation(abi.profiles[arch], abi.profiles[abi.native], data, stale, r.bytes)
  {
    r := ConvertArch(abi.profiles[arch], abi.profiles[abi.native], data, stale);
  }
}
