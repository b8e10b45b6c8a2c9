/** The siginfo_t record, the architecture profiles that lay it out, and what a
    correct cross-architecture translation of one record into another is.

    A record is the raw bytes of one architecture's siginfo_t. Every layout starts
    with the same header of three 32-bit signed integers (si_signo, si_errno,
    si_code); the union payload _sifields starts at the profile's payloadOffset
    (possibly after alignment bytes) and runs to the end of the record. Inside the
    payload each field of each union member sits in a slot whose offset and width
    the profile declares. Members overlap one another; the fields of one member do not. */
module SigInfo {
  import opened Bytes
  import opened Options
  import opened Signals

  /** The architectures a traced process may run under. */
  datatype SupportedArch = X86 | X86_64 | AArch64

  /** si_signo at offset 0, si_errno at 4, si_code at 8. */
  const HeaderSize: nat := 12

  function SigNo(r: seq<Byte>): int
    requires |r| >= HeaderSize
  {
    Signed(r[0..4])
  }

  function ErrNo(r: seq<Byte>): int
    requires |r| >= HeaderSize
  {
    Signed(r[4..8])
  }

  function Code(r: seq<Byte>): int
    requires |r| >= HeaderSize
  {
    Signed(r[8..12])
  }

  /** The union members of _sifields the translator knows. */
  datatype Category =
    | Kill     // _kill: sent by kill()
    | Rt       // _rt: sigqueue() or a POSIX message queue
    | Timer    // _timer: POSIX timer expiry
    | SigChld  // _sigchld: child status change
    | SigFault // _sigfault: SIGILL, SIGFPE, SIGSEGV, SIGBUS, SIGTRAP
    | SigPoll  // _sigpoll: SIGPOLL/SIGIO
    | SigSys   // _sigsys: seccomp system-call trap

  /** The members selected by si_code (as opposed to by si_signo). */
  predicate ChosenByCode(c: Category)
  {
    c == Kill || c == Rt || c == Timer
  }

  /** The individual fields the translator copies, one per SI_COPY. */
  datatype Field =
    | KillPid | KillUid
    | RtPid | RtUid | RtSigval
    | TimerTid | TimerOverrun | TimerSigval
    | ChldPid | ChldUid | ChldStatus | ChldStime | ChldUtime
    | FaultAddr | FaultAddrLsb | FaultLower | FaultUpper
    | PollBand | PollFd
    | SysCallAddr | SysSyscall | SysArch

  function CategoryOf(f: Field): Category
  {
    match f
    case KillPid | KillUid => Kill
    case RtPid | RtUid | RtSigval => Rt
    case TimerTid | TimerOverrun | TimerSigval => Timer
    case ChldPid | ChldUid | ChldStatus | ChldStime | ChldUtime => SigChld
    case FaultAddr | FaultAddrLsb | FaultLower | FaultUpper => SigFault
    case PollBand | PollFd => SigPoll
    case SysCallAddr | SysSyscall | SysArch => SigSys
  }

  /** Whether the field's C type is signed (pid_t, int, long, short, clock_t) or
      unsigned (uid_t, unsigned int, and the pointer-valued words). The signedness
      decides whether widening the field sign-extends or zero-extends it. */
  predicate IsSigned(f: Field)
  {
    match f
    case KillPid | RtPid | TimerTid | TimerOverrun | ChldPid | ChldStatus | ChldStime | ChldUtime => true
    case FaultAddrLsb | PollBand | PollFd | SysSyscall => true
    case KillUid | RtUid | RtSigval | TimerSigval | ChldUid => false
    case FaultAddr | FaultLower | FaultUpper | SysCallAddr | SysArch => false
  }

  /** The fields copied for a member, as a set. */
  function FieldsOf(c: Category): (fs: set<Field>)
    ensures forall f :: f in fs <==> CategoryOf(f) == c
  {
    match c
    case Kill => {KillPid, KillUid}
    case Rt => {RtPid, RtUid, RtSigval}
    case Timer => {TimerTid, TimerOverrun, TimerSigval}
    case SigChld => {ChldPid, ChldUid, ChldStatus, ChldStime, ChldUtime}
    case SigFault => {FaultAddr, FaultAddrLsb, FaultLower, FaultUpper}
    case SigPoll => {PollBand, PollFd}
    case SigSys => {SysCallAddr, SysSyscall, SysArch}
  }

  /** The discriminant: which union member a record with this si_signo and si_code
      carries, or None when the translator knows no member for it. When si_code <= 0
      the code decides (SI_USER, SI_QUEUE/SI_MESGQ, SI_TIMER); otherwise the signal
      decides (SIGCHLD, the five fault signals, SIGPOLL, SIGSYS). */
  function Select(signo: int, code: int): (c: Option<Category>)
    ensures c.Some? ==> (ChosenByCode(c.value) <==> code <= 0)
    ensures code <= 0 ==> (c.Some? <==> code == SI_USER || code == SI_QUEUE || code == SI_MESGQ || code == SI_TIMER)
    ensures code > 0 ==> (c == Some(SigFault) <==> IsFaultSignal(signo))
    ensures code > 0 ==> (c.Some? <==> signo == SIGCHLD || IsFaultSignal(signo) || signo == SIGPOLL || signo == SIGSYS)
    ensures c == Some(Kill) <==> code == SI_USER
    ensures c == Some(Rt) <==> code == SI_QUEUE || code == SI_MESGQ
    ensures c == Some(Timer) <==> code == SI_TIMER
    ensures c == Some(SigChld) <==> code > 0 && signo == SIGCHLD
    ensures c == Some(SigFault) <==> code > 0 && IsFaultSignal(signo)
    ensures c == Some(SigPoll) <==> code > 0 && signo == SIGPOLL
    ensures c == Some(SigSys) <==> code > 0 && signo == SIGSYS
  {
    if code <= 0 then
      if code == SI_USER then Some(Kill)
      else if code == SI_QUEUE || code == SI_MESGQ then Some(Rt)
      else if code == SI_TIMER then Some(Timer)
      else None
    else
      if signo == SIGCHLD then Some(SigChld)
      else if signo == SIGILL || signo == SIGFPE || signo == SIGSEGV || signo == SIGBUS || signo == SIGTRAP then Some(SigFault)
      else if signo == SIGPOLL then Some(SigPoll)
      else if signo == SIGSYS then Some(SigSys)
      else None
  }

  /** What keys the choice: for si_code <= 0 only the code matters, whatever the
      signal; for si_code > 0 only the signal matters, whatever the (positive) code. */
  lemma SelectKey(s1: int, s2: int, c1: int, c2: int)
    ensures c1 <= 0 ==> Select(s1, c1) == Select(s2, c1)
    ensures c1 > 0 && c2 > 0 ==> Select(s1, c1) == Select(s1, c2)
  {
  }

  /** The fields a translation of the record r copies. */
  function Selected(r: seq<Byte>): set<Field>
    requires |r| >= HeaderSize
  {
    match Select(SigNo(r), Code(r))
    case None => {}
    case Some(c) => FieldsOf(c)
  }

  datatype Slot = Slot(offset: nat, width: nat)

  predicate InSlot(i: int, s: Slot)
  {
    s.offset <= i < s.offset + s.width
  }

  predicate Disjoint(s: Slot, t: Slot)
  {
    s.offset + s.width <= t.offset || t.offset + t.width <= s.offset
  }

  /** One architecture's siginfo_t layout: its total size, where the payload
      starts, and the slot of every field. */
  datatype Profile = Profile(arch: SupportedArch, size: nat, payloadOffset: nat, slots: map<Field, Slot>)

  ghost predicate WellFormed(p: Profile)
  {
    && HeaderSize <= p.payloadOffset <= p.size
    && (forall f: Field :: f in p.slots)
    && (forall f :: f in p.slots ==>
          0 < p.slots[f].width && p.payloadOffset <= p.slots[f].offset && p.slots[f].offset + p.slots[f].width <= p.size)
  }

  /** The fields of one union member do not overlap (members overlap one another). */
  ghost predicate MembersDisjoint(p: Profile)
  {
    forall f, g {:trigger Disjoint(p.slots[f], p.slots[g])} ::
      f in p.slots && g in p.slots && f != g && CategoryOf(f) == CategoryOf(g) ==>
      Disjoint(p.slots[f], p.slots[g])
  }

  /** The bytes of field f in a record laid out by p. */
  function FieldBytes(p: Profile, r: seq<Byte>, f: Field): seq<Byte>
    requires WellFormed(p) && |r| == p.size
  {
    r[p.slots[f].offset .. p.slots[f].offset + p.slots[f].width]
  }

  /** Field f of the native record r holds field f of the source record data,
      converted to the native width as a C assignment converts it. */
  ghost predicate FieldCopied(r: seq<Byte>, src: Profile, native: Profile, data: seq<Byte>, f: Field)
  {
    && f in src.slots && f in native.slots
    && src.slots[f].offset + src.slots[f].width <= |data|
    && native.slots[f].offset + native.slots[f].width <= |r|
    && r[native.slots[f].offset .. native.slots[f].offset + native.slots[f].width]
       == Resize(data[src.slots[f].offset .. src.slots[f].offset + src.slots[f].width],
                 native.slots[f].width, IsSigned(f))
  }

  /** Byte i lies inside the native slot of one of the fields in done. */
  ghost predicate Covered(native: Profile, done: set<Field>, i: int)
  {
    exists f :: f in done && f in native.slots && InSlot(i, native.slots[f])
  }

  /** The state of the native record r once the fields in done have been copied:
      the header is the source's, the alignment bytes between header and payload
      still hold whatever the storage held before (stale), each field in done is
      copied, and every other payload byte is zero. */
  ghost predicate Filled(r: seq<Byte>, src: Profile, native: Profile, data: seq<Byte>, stale: seq<Byte>, done: set<Field>)
  {
    && |r| == native.size && |stale| == native.size && |data| >= HeaderSize
    && HeaderSize <= native.payloadOffset <= native.size
    && r[..HeaderSize] == data[..HeaderSize]
    && (forall i :: HeaderSize <= i < native.payloadOffset ==> r[i] == stale[i])
    && (forall f :: f in done ==> FieldCopied(r, src, native, data, f))
    && (forall i :: native.payloadOffset <= i < native.size && !Covered(native, done, i) ==> r[i] == 0)
  }

  /** The native record the translator builds before its switch: the source header
      written over the prior storage contents, then the whole payload zeroed. */
  function Cleared(stale: seq<Byte>, native: Profile, data: seq<Byte>): (r: seq<Byte>)
    requires HeaderSize <= native.payloadOffset <= native.size == |stale| && |data| >= HeaderSize
    ensures |r| == |stale|
  {
    var header := Splice(Splice(Splice(stale, 0, data[0..4]), 4, data[4..8]), 8, data[8..12]);
    Splice(header, native.payloadOffset, Fill(0, native.size - native.payloadOffset))
  }

  /** Before the switch nothing is copied yet: the record holds the header, the
      stale alignment bytes and a zero payload. */
  lemma ClearedFilled(src: Profile, native: Profile, data: seq<Byte>, stale: seq<Byte>)
    requires HeaderSize <= native.payloadOffset <= native.size == |stale| && |data| >= HeaderSize
    ensures Filled(Cleared(stale, native, data), src, native, data, stale, {})
  {
    var r1 := Splice(stale, 0, data[0..4]);
    var r2 := Splice(r1, 4, data[4..8]);
    var r3 := Splice(r2, 8, data[8..12]);
    var r := Cleared(stale, native, data);
    SpliceAt(stale, 0, data[0..4]);
    SpliceAt(r1, 4, data[4..8]);
    SpliceAt(r2, 8, data[8..12]);
    SpliceAt(r3, native.payloadOffset, Fill(0, native.size - native.payloadOffset));
    assert forall i :: 0 <= i < HeaderSize ==> r[i] == data[i];
    assert r[..HeaderSize] == data[..HeaderSize];
  }

  /** r is the translation of the source record data into the native layout. */
  ghost predicate IsTranslation(src: Profile, native: Profile, data: seq<Byte>, stale: seq<Byte>, r: seq<Byte>)
  {
    |data| == src.size && |data| >= HeaderSize && Filled(r, src, native, data, stale, Selected(data))
  }

  /** The fields of a member in the order the translator copies them. */
  function Members(c: Category): seq<Field>
  {
    match c
    case Kill => [KillPid, KillUid]
    case Rt => [RtPid, RtUid, RtSigval]
    case Timer => [TimerTid, TimerOverrun, TimerSigval]
    case SigChld => [ChldPid, ChldUid, ChldStatus, ChldStime, ChldUtime]
    case SigFault => [FaultAddr, FaultAddrLsb, FaultLower, FaultUpper]
    case SigPoll => [PollBand, PollFd]
    case SigSys => [SysCallAddr, SysSyscall, SysArch]
  }

  /** The translator copies every field of the member, and each one once. */
  lemma MembersExact(c: Category)
    ensures forall f :: f in Members(c) <==> CategoryOf(f) == c
    ensures forall i :: 0 <= i < |Members(c)| ==> CategoryOf(Members(c)[i]) == c
    ensures forall a, b :: 0 <= a < b < |Members(c)| ==>
              Members(c)[a] != Members(c)[b] && CategoryOf(Members(c)[a]) == CategoryOf(Members(c)[b])
  {
  }

  /** Field f has a slot in p, and the slot lies inside a record of n bytes. */
  predicate Fits(p: Profile, f: Field, n: int)
  {
    f in p.slots && p.slots[f].offset + p.slots[f].width <= n
  }

  /** The native record r after one SI_COPY of field f from the source record data. */
  function Stored(r: seq<Byte>, src: Profile, native: Profile, data: seq<Byte>, f: Field): (r': seq<Byte>)
    requires Fits(src, f, |data|) && Fits(native, f, |r|)
    ensures |r'| == |r|
  {
    Splice(r, native.slots[f].offset,
           Resize(data[src.slots[f].offset .. src.slots[f].offset + src.slots[f].width], native.slots[f].width, IsSigned(f)))
  }

  /** One SI_COPY leaves field f holding its converted source value. */
  lemma StoredCopies(r: seq<Byte>, src: Profile, native: Profile, data: seq<Byte>, f: Field)
    requires Fits(src, f, |data|) && Fits(native, f, |r|)
    ensures FieldCopied(Stored(r, src, native, data, f), src, native, data, f)
  {
    var s, d := src.slots[f], native.slots[f];
    SpliceAt(r, d.offset, Resize(data[s.offset .. s.offset + s.width], d.width, IsSigned(f)));
  }

  /** One SI_COPY writes nothing outside the native slot of its field. */
  lemma StoredFrame(r: seq<Byte>, src: Profile, native: Profile, data: seq<Byte>, f: Field, i: int)
    requires Fits(src, f, |data|) && Fits(native, f, |r|)
    requires 0 <= i < |r| && !InSlot(i, native.slots[f])
    ensures Stored(r, src, native, data, f)[i] == r[i]
  {
    var s, d := src.slots[f], native.slots[f];
    SpliceAt(r, d.offset, Resize(data[s.offset .. s.offset + s.width], d.width, IsSigned(f)));
  }

  /** A copy of field f leaves a copied field g whose slot it does not overlap intact. */
  lemma StoredKeepsField(r: seq<Byte>, src: Profile, native: Profile, data: seq<Byte>, f: Field, g: Field)
    requires Fits(src, f, |data|) && Fits(native, f, |r|)
    requires FieldCopied(r, src, native, data, g)
    requires Disjoint(native.slots[f], native.slots[g])
    ensures FieldCopied(Stored(r, src, native, data, f), src, native, data, g)
  {
    var t := native.slots[g];
    var r' := Stored(r, src, native, data, f);
    forall i | t.offset <= i < t.offset + t.width
      ensures r'[i] == r[i]
    {
      StoredFrame(r, src, native, data, f, i);
    }
    assert r'[t.offset .. t.offset + t.width] == r[t.offset .. t.offset + t.width];
  }

  /** Every field of fs has a slot in both layouts, inside records of n and m bytes. */
  ghost predicate AllFit(src: Profile, native: Profile, fs: seq<Field>, n: int, m: int)
  {
    forall j :: 0 <= j < |fs| ==> Fits(src, fs[j], n) && Fits(native, fs[j], m)
  }

  /** Every field has a slot in both layouts, inside records of n and m bytes. */
  ghost predicate EveryFieldFits(src: Profile, native: Profile, n: int, m: int)
  {
    forall f :: Fits(src, f, n) && Fits(native, f, m)
  }

  /** The native record r after the SI_COPYs of the first k fields of fs, in order. */
  function CopiedPrefix(r: seq<Byte>, src: Profile, native: Profile, data: seq<Byte>, fs: seq<Field>, k: nat): (r': seq<Byte>)
    requires AllFit(src, native, fs, |data|, |r|) && k <= |fs|
    ensures |r'| == |r|
  {
    if k == 0 then r else Stored(CopiedPrefix(r, src, native, data, fs, k - 1), src, native, data, fs[k - 1])
  }

  /** One more step of CopiedPrefix is one more Stored. */
  lemma CopiedPrefixStep(r: seq<Byte>, src: Profile, native: Profile, data: seq<Byte>, fs: seq<Field>, k: nat,
                         before: seq<Byte>, after: seq<Byte>)
    requires AllFit(src, native, fs, |data|, |r|) && k < |fs|
    requires before == CopiedPrefix(r, src, native, data, fs, k)
    requires after == Stored(before, src, native, data, fs[k])
    ensures after == CopiedPrefix(r, src, native, data, fs, k + 1)
  {
  }

  /** The record the translator's switch leaves behind: the fields of the member c
      copied in order, or r unchanged when no member is selected. */
  function Copied(r: seq<Byte>, src: Profile, native: Profile, data: seq<Byte>, c: Option<Category>): (r': seq<Byte>)
    requires EveryFieldFits(src, native, |data|, |r|)
    ensures |r'| == |r|
  {
    match c
    case None => r
    case Some(m) => CopiedPrefix(r, src, native, data, Members(m), |Members(m)|)
  }

  /** A byte outside the slots of the first k fields of fs keeps its value. */
  lemma {:induction false} CopiedPrefixKeeps(r: seq<Byte>, src: Profile, native: Profile, data: seq<Byte>,
                                             fs: seq<Field>, k: nat, i: int)
    requires AllFit(src, native, fs, |data|, |r|)
    requires k <= |fs| && 0 <= i < |r|
    requires forall j :: 0 <= j < k ==> !InSlot(i, native.slots[fs[j]])
    ensures CopiedPrefix(r, src, native, data, fs, k)[i] == r[i]
  {
    if k > 0 {
      CopiedPrefixKeeps(r, src, native, data, fs, k - 1, i);
      StoredFrame(CopiedPrefix(r, src, native, data, fs, k - 1), src, native, data, fs[k - 1], i);
    }
  }

  /** When fs lists distinct fields of one member, each of its first k fields holds
      its copy once the first k copies are done: a later copy never overwrites an
      earlier one. */
  lemma {:induction false} CopiedPrefixHolds(r: seq<Byte>, src: Profile, native: Profile, data: seq<Byte>,
                                             fs: seq<Field>, k: nat, j: nat)
    requires AllFit(src, native, fs, |data|, |r|) && MembersDisjoint(native)
    requires j < k <= |fs|
    requires forall a, b :: 0 <= a < b < |fs| ==> fs[a] != fs[b] && CategoryOf(fs[a]) == CategoryOf(fs[b])
    ensures FieldCopied(CopiedPrefix(r, src, native, data, fs, k), src, native, data, fs[j])
  {
    var before := CopiedPrefix(r, src, native, data, fs, k - 1);
    if j == k - 1 {
      StoredCopies(before, src, native, data, fs[j]);
    } else {
      CopiedPrefixHolds(r, src, native, data, fs, k - 1, j);
      assert Disjoint(native.slots[fs[k - 1]], native.slots[fs[j]]);
      StoredKeepsField(before, src, native, data, fs[k - 1], fs[j]);
    }
  }

  /** Copying member c leaves every byte outside the member's slots as it was. */
  lemma CopiedMemberKeeps(r: seq<Byte>, src: Profile, native: Profile, data: seq<Byte>, c: Category, i: int)
    requires EveryFieldFits(src, native, |data|, |r|)
    requires 0 <= i < |r| && !Covered(native, FieldsOf(c), i)
    ensures Copied(r, src, native, data, Some(c))[i] == r[i]
  {
    var fs := Members(c);
    MembersExact(c);
    assert AllFit(src, native, fs, |data|, |r|);
    forall j | 0 <= j < |fs|
      ensures !InSlot(i, native.slots[fs[j]])
    {
      assert fs[j] in FieldsOf(c);
    }
    CopiedPrefixKeeps(r, src, native, data, fs, |fs|, i);
  }

  /** Copying member c leaves each of its fields holding its converted source value. */
  lemma CopiedMemberHolds(r: seq<Byte>, src: Profile, native: Profile, data: seq<Byte>, c: Category, f: Field)
    requires EveryFieldFits(src, native, |data|, |r|) && MembersDisjoint(native)
    requires f in FieldsOf(c)
    ensures FieldCopied(Copied(r, src, native, data, Some(c)), src, native, data, f)
  {
    var fs := Members(c);
    MembersExact(c);
    var j := MemberIndex(c, f);
    assert AllFit(src, native, fs, |data|, |r|);
    CopiedPrefixHolds(r, src, native, data, fs, |fs|, j);
  }

  /** Where field f of member c sits in the member's copy order. */
  lemma MemberIndex(c: Category, f: Field) returns (j: nat)
    requires f in FieldsOf(c)
    ensures j < |Members(c)| && Members(c)[j] == f
  {
    MembersExact(c);
    j :| 0 <= j < |Members(c)| && Members(c)[j] == f;
  }

  /** The constructive translation meets the declarative one: copying the selected
      member's fields into a record holding the header, stale alignment bytes and a
      zeroed payload yields the translation. */
  lemma CopiedTranslates(r: seq<Byte>, src: Profile, native: Profile, data: seq<Byte>, stale: seq<Byte>)
    requires WellFormed(src) && WellFormed(native) && MembersDisjoint(native)
    requires |r| == native.size && |data| == src.size
    requires Filled(r, src, native, data, stale, {})
    ensures IsTranslation(src, native, data, stale, Copied(r, src, native, data, Select(SigNo(data), Code(data))))
  {
    var c := Select(SigNo(data), Code(data));
    if c.Some? {
      var done, out := FieldsOf(c.value), Copied(r, src, native, data, c);
      forall i | 0 <= i < |r| && !Covered(native, done, i)
        ensures out[i] == r[i]
      {
        CopiedMemberKeeps(r, src, native, data, c.value, i);
      }
      forall f | f in done
        ensures FieldCopied(out, src, native, data, f)
      {
        CopiedMemberHolds(r, src, native, data, c.value, f);
      }
      assert forall i :: 0 <= i < native.payloadOffset ==> !Covered(native, done, i);
      assert out[..HeaderSize] == data[..HeaderSize] by {
        forall i | 0 <= i < HeaderSize
          ensures out[i] == data[i]
        {
          assert r[..HeaderSize][i] == r[i];
        }
      }
    }
  }

  /** Determinism: a record has at most one translation (for given prior storage contents). */
  lemma TranslationUnique(src: Profile, native: Profile, data: seq<Byte>, stale: seq<Byte>, r1: seq<Byte>, r2: seq<Byte>)
    requires IsTranslation(src, native, data, stale, r1)
    requires IsTranslation(src, native, data, stale, r2)
    ensures r1 == r2
  {
    forall i | 0 <= i < |r1|
      ensures r1[i] == r2[i]
    {
      SameByte(src, native, data, stale, stale, Selected(data), r1, r2, i);
    }
  }

  /** Two records filled from the same source agree at byte i, unless i is an
      alignment byte whose prior contents differ. */
  lemma SameByte(src: Profile, native: Profile, data: seq<Byte>, s1: seq<Byte>, s2: seq<Byte>, done: set<Field>,
                 r1: seq<Byte>, r2: seq<Byte>, i: nat)
    requires Filled(r1, src, native, data, s1, done)
    requires Filled(r2, src, native, data, s2, done)
    requires i < |r1|
    requires HeaderSize <= i < native.payloadOffset ==> s1[i] == s2[i]
    ensures r1[i] == r2[i]
  {
    if i < HeaderSize {
      assert r1[i] == r1[..HeaderSize][i] && r2[i] == r2[..HeaderSize][i];
    } else if i >= native.payloadOffset && Covered(native, done, i) {
      var f :| f in done && f in native.slots && InSlot(i, native.slots[f]);
      SlotByte(src, native, data, r1, r2, f, i);
    }
  }

  /** Two records holding the same copy of field f agree on every byte of its slot. */
  lemma SlotByte(src: Profile, native: Profile, data: seq<Byte>, r1: seq<Byte>, r2: seq<Byte>, f: Field, i: int)
    requires FieldCopied(r1, src, native, data, f) && FieldCopied(r2, src, native, data, f)
    requires InSlot(i, native.slots[f])
    ensures i < |r1| && i < |r2| && r1[i] == r2[i]
  {
    var s := native.slots[f];
    assert r1[i] == r1[s.offset .. s.offset + s.width][i - s.offset];
    assert r2[i] == r2[s.offset .. s.offset + s.width][i - s.offset];
  }

  /** The header of a translation is the source's header. */
  lemma TranslationKeepsHeader(src: Profile, native: Profile, data: seq<Byte>, stale: seq<Byte>, r: seq<Byte>)
    requires IsTranslation(src, native, data, stale, r)
    ensures SigNo(r) == SigNo(data) && ErrNo(r) == ErrNo(data) && Code(r) == Code(data)
  {
    assert r[0..4] == r[..HeaderSize][0..4] == data[..HeaderSize][0..4] == data[0..4];
    assert r[4..8] == r[..HeaderSize][4..8] == data[..HeaderSize][4..8] == data[4..8];
    assert r[8..12] == r[..HeaderSize][8..12] == data[..HeaderSize][8..12] == data[8..12];
  }

  /** A record whose (si_signo, si_code) selects no member translates to its
      header followed by an all-zero payload. */
  lemma UnknownDiscriminantZeroPayload(src: Profile, native: Profile, data: seq<Byte>, stale: seq<Byte>, r: seq<Byte>)
    requires IsTranslation(src, native, data, stale, r)
    requires Select(SigNo(data), Code(data)).None?
    ensures forall i :: native.payloadOffset <= i < native.size ==> r[i] == 0
  {
  }

  /** Each copied field holds the source field's value reduced to the native width:
      pointer-valued and other unsigned fields keep their low-order bits when
      narrowed and are zero-extended when widened; signed fields are sign-extended. */
  lemma TranslatedFieldValue(src: Profile, native: Profile, data: seq<Byte>, stale: seq<Byte>, r: seq<Byte>, f: Field)
    requires WellFormed(src) && WellFormed(native)
    requires IsTranslation(src, native, data, stale, r)
    requires f in Selected(data)
    ensures var v := FieldBytes(src, data, f);
            Unsigned(FieldBytes(native, r, f))
            == (if IsSigned(f) then Signed(v) else Unsigned(v)) % Pow256(native.slots[f].width)
  {
    assert FieldCopied(r, src, native, data, f);
    ResizeValue(FieldBytes(src, data, f), native.slots[f].width, IsSigned(f));
  }

  /** Payload isolation: two source records that agree on the header and on the
      fields of the selected member translate identically, whatever else their
      payloads hold. */
  lemma TranslationIgnoresUnselectedBytes(src: Profile, native: Profile, d1: seq<Byte>, d2: seq<Byte>,
                                          stale: seq<Byte>, r1: seq<Byte>, r2: seq<Byte>)
    requires WellFormed(src)
    requires IsTranslation(src, native, d1, stale, r1)
    requires IsTranslation(src, native, d2, stale, r2)
    requires d1[..HeaderSize] == d2[..HeaderSize]
    requires forall f :: f in Selected(d1) ==> FieldBytes(src, d1, f) == FieldBytes(src, d2, f)
    ensures r1 == r2
  {
    assert d1[0..4] == d1[..HeaderSize][0..4] && d2[0..4] == d2[..HeaderSize][0..4];
    assert d1[8..12] == d1[..HeaderSize][8..12] && d2[8..12] == d2[..HeaderSize][8..12];
    assert Selected(d1) == Selected(d2);
    forall f | f in Selected(d2)
      ensures FieldCopied(r1, src, native, d2, f)
    {
      assert FieldCopied(r1, src, native, d1, f);
    }
    assert IsTranslation(src, native, d2, stale, r1);
    TranslationUnique(src, native, d2, stale, r1, r2);
  }

  /** The prior contents of the native storage show through only in the alignment
      bytes between the header and the payload; a native layout whose payload
      follows the header directly makes the translation a function of the source
      record alone. */
  lemma TranslationStaleOnlyInGap(src: Profile, native: Profile, data: seq<Byte>, s1: seq<Byte>, s2: seq<Byte>,
                                  r1: seq<Byte>, r2: seq<Byte>)
    requires IsTranslation(src, native, data, s1, r1)
    requires IsTranslation(src, native, data, s2, r2)
    ensures forall i :: 0 <= i < |r1| && !(HeaderSize <= i < native.payloadOffset) ==> r1[i] == r2[i]
    ensures native.payloadOffset == HeaderSize ==> r1 == r2
  {
    forall i | 0 <= i < |r1| && !(HeaderSize <= i < native.payloadOffset)
      ensures r1[i] == r2[i]
    {
      SameByte(src, native, data, s1, s2, Selected(data), r1, r2, i);
    }
  }
}
