/** Memory-protection and signal-disposition helpers: the mmap protection a SysV
    shared-memory attach implies, which signals dump core, and the "rwx" rendering of
    a protection mask. A C int is modelled as its 32 bits (bv32). */
module KernelFlags {
  import opened Options
  import opened Numerals
  import opened Signals
  import opened KernelNames

  const PROT_READ: bv32 := 0x1
  const PROT_WRITE: bv32 := 0x2
  const PROT_EXEC: bv32 := 0x4
  /** The protection bits the "rwx" string shows. */
  const PROT_RWX: bv32 := 0x7

  /** shmat flags: attach read-only (octal 010000) and executable (octal 0100000). */
  const SHM_RDONLY: bv32 := 0x1000
  const SHM_EXEC: bv32 := 0x8000

  /** The mmap protection of a segment attached with these shmat flags: always
      readable, writable unless attached read-only, executable when asked for, and
      nothing else. */
  function ShmFlagsToMmapProt(flags: bv32): (prot: bv32)
    ensures prot & PROT_READ != 0
    ensures prot & PROT_WRITE != 0 <==> flags & SHM_RDONLY == 0
    ensures prot & PROT_EXEC != 0 <==> flags & SHM_EXEC != 0
    ensures prot & !PROT_RWX == 0
  {
    PROT_READ | (if flags & SHM_RDONLY != 0 then 0 else PROT_WRITE) | (if flags & SHM_EXEC != 0 then PROT_EXEC else 0)
  }

  /** The signals whose default action terminates the process with a core dump. */
  predicate IsCoredumpingSignal(signo: int): (b: bool)
    ensures b ==> SIGQUIT <= signo <= SIGSYS
    ensures IsFaultSignal(signo) ==> b
  {
    || signo == SIGQUIT || signo == SIGILL || signo == SIGTRAP || signo == SIGABRT || signo == SIGFPE
    || signo == SIGSEGV || signo == SIGBUS || signo == SIGSYS || signo == SIGXCPU || signo == SIGXFSZ
  }

  /** Every fault signal (those sharing the translator's fault layout) dumps core, and
      every core-dumping signal is a standard signal with a macro name. */
  lemma CoredumpingSignals(signo: int)
    ensures IsFaultSignal(signo) ==> IsCoredumpingSignal(signo)
    ensures IsCoredumpingSignal(signo) ==> StandardSignalName(signo).Some?
    ensures signo == SIGKILL || signo == SIGTERM || signo == SIGCHLD || signo >= 32 ==> !IsCoredumpingSignal(signo)
  {
    StandardSignalNames(signo);
  }

  /** The value HEX() prints for a C int: the int converted to a 64-bit unsigned
      number, so a negative int (sign bit set) is sign-extended. */
  function HexValue(prot: bv32): nat
  {
    if prot as int >= 0x8000_0000 then prot as int + 0xFFFF_FFFF_0000_0000 else prot as int
  }

  /** The three flag characters of a protection mask: 'r', 'w', 'x' for a set
      protection bit and '-' for a clear one. */
  function FlagChars(prot: bv32): string
  {
    [if prot & PROT_READ != 0 then 'r' else '-',
     if prot & PROT_WRITE != 0 then 'w' else '-',
     if prot & PROT_EXEC != 0 then 'x' else '-']
  }

  /** The suffix after the flag characters: " (0x...)" with the whole value when
      any bit besides the three protection bits is set, and nothing otherwise. */
  function ExtraSuffix(prot: bv32): string
  {
    if prot & !PROT_RWX != 0 then " (" + HexString(HexValue(prot)) + ")" else ""
  }

  /** The rendering of a protection mask. */
  function ProtDescription(prot: bv32): (s: string)
    ensures 3 <= |s|
    ensures |s| == 3 <==> prot & !PROT_RWX == 0
    ensures forall i :: 0 <= i < 3 ==> s[i] == "rwx"[i] || s[i] == '-'
  {
    FlagChars(prot) + ExtraSuffix(prot)
  }

  method ProtFlagsString(prot: bv32) returns (s: string)
    ensures s == ProtDescription(prot)
    ensures ParseProtDescription(s) == Some(prot)
  {
    var flags := new char[3] ['r', 'w', 'x'];
    if prot & PROT_READ == 0 {
      flags[0] := '-';
    }
    if prot & PROT_WRITE == 0 {
      flags[1] := '-';
    }
    if prot & PROT_EXEC == 0 {
      flags[2] := '-';
    }
    s := flags[..];
    assert s == FlagChars(prot);
    if prot & !PROT_RWX != 0 {
      s := s + (" (" + HexString(HexValue(prot)) + ")");
    }
    assert s == ProtDescription(prot);
    ParseProtDescriptionRoundTrip(prot);
  }

  /** The bit a flag character stands for: set, clear, or not a flag character. */
  function FlagBit(c: char, on: char, bit: bv32): Option<bv32>
  {
    if c == on then Some(bit) else if c == '-' then Some(0) else None
  }

  /** The protection bits three flag characters describe, if they are flag characters. */
  function ParseFlagChars(f: string): Option<bv32>
    requires |f| == 3
  {
    var r, w, x := FlagBit(f[0], 'r', PROT_READ), FlagBit(f[1], 'w', PROT_WRITE), FlagBit(f[2], 'x', PROT_EXEC);
    if r.None? || w.None? || x.None? then None else Some(r.value | w.value | x.value)
  }

  /** The mask a " (0x...)" suffix spells, if it is one. */
  function ParseExtraSuffix(t: string): Option<bv32>
  {
    if |t| < 3 || t[..2] != " (" || t[|t| - 1] != ')' then None
    else match ParseHex(t[2..|t| - 1])
      case None => None
      case Some(v) => PrintedMask(v)
  }

  /** The int whose HEX() is v: v must be the sign extension of a 32-bit value
      (below 2^31, or at least 2^64 - 2^31 and below 2^64), and that value must have a
      bit besides the protection bits set. */
  function PrintedMask(v: nat): Option<bv32>
  {
    if v < 0x8000_0000 || 0xFFFF_FFFF_8000_0000 <= v < 0x1_0000_0000_0000_0000 then
      var prot := (v % 0x1_0000_0000) as bv32;
      if prot & !PROT_RWX != 0 then Some(prot) else None
    else None
  }

  /** The protection mask a rendering describes, if s is one. */
  function ParseProtDescription(s: string): Option<bv32>
  {
    if |s| < 3 then None
    else match ParseFlagChars(s[..3])
      case None => None
      case Some(low) =>
        if |s| == 3 then Some(low)
        else match ParseExtraSuffix(s[3..])
          case None => None
          case Some(prot) => if prot & PROT_RWX == low then Some(prot) else None
  }

  /** The three flag characters give back the three protection bits. */
  lemma FlagCharsRoundTrip(prot: bv32)
    ensures ParseFlagChars(FlagChars(prot)) == Some(prot & PROT_RWX)
  {
    LowBits(prot);
  }

  lemma LowBits(prot: bv32)
    ensures (if prot & PROT_READ != 0 then PROT_READ else 0)
            | (if prot & PROT_WRITE != 0 then PROT_WRITE else 0)
            | (if prot & PROT_EXEC != 0 then PROT_EXEC else 0) == prot & PROT_RWX
  {
  }

  /** A mask with no bits besides the three protection bits is those bits. */
  lemma OnlyLowBits(prot: bv32)
    requires prot & !PROT_RWX == 0
    ensures prot & PROT_RWX == prot
  {
  }

  /** Adding a multiple of 2^32 to a 32-bit value leaves its low 32 bits alone. */
  lemma SignExtensionLow(u: int)
    requires 0 <= u < 0x1_0000_0000
    ensures (u + 0xFFFF_FFFF_0000_0000) % 0x1_0000_0000 == u && u % 0x1_0000_0000 == u
    ensures u + 0xFFFF_FFFF_0000_0000 < 0x1_0000_0000_0000_0000
  {
    assert u + 0xFFFF_FFFF_0000_0000 == 0xFFFF_FFFF * 0x1_0000_0000 + u;
  }

  /** The printed value is the sign extension of the int to 64 bits, and its low
      32 bits are the int's bits. */
  lemma HexValueMod(prot: bv32)
    ensures HexValue(prot) < 0x8000_0000 || 0xFFFF_FFFF_8000_0000 <= HexValue(prot) < 0x1_0000_0000_0000_0000
    ensures HexValue(prot) % 0x1_0000_0000 == prot as int
  {
    SignExtensionLow(prot as int);
  }

  /** The printed value determines the int. */
  lemma HexValueLow(prot: bv32)
    ensures HexValue(prot) < 0x8000_0000 || 0xFFFF_FFFF_8000_0000 <= HexValue(prot) < 0x1_0000_0000_0000_0000
    ensures (HexValue(prot) % 0x1_0000_0000) as bv32 == prot
  {
    HexValueMod(prot);
  }

  /** The hex suffix gives back the whole mask. */
  lemma ExtraSuffixRoundTrip(prot: bv32)
    requires prot & !PROT_RWX != 0
    ensures ParseExtraSuffix(ExtraSuffix(prot)) == Some(prot)
  {
    var hex := HexString(HexValue(prot));
    var t := ExtraSuffix(prot);
    assert t[..2] == " (";
    assert t[2..|t| - 1] == hex;
    HexExact(hex, HexValue(prot));
    PrintedMaskOfHexValue(prot);
  }

  /** The printed value of a mask with a bit besides the protection bits set gives
      back the mask. */
  lemma PrintedMaskOfHexValue(prot: bv32)
    requires prot & !PROT_RWX != 0
    ensures PrintedMask(HexValue(prot)) == Some(prot)
  {
    HexValueLow(prot);
    PrintedMaskOf(HexValue(prot), prot);
  }

  /** PrintedMask finds p from any sign-extended value whose low bits are p. */
  lemma PrintedMaskOf(v: nat, p: bv32)
    requires v < 0x8000_0000 || 0xFFFF_FFFF_8000_0000 <= v < 0x1_0000_0000_0000_0000
    requires (v % 0x1_0000_0000) as bv32 == p && p & !PROT_RWX != 0
    ensures PrintedMask(v) == Some(p)
  {
  }

  /** The rendering of a protection mask determines the mask: nothing is lost,
      and two masks never print alike. */
  lemma ParseProtDescriptionRoundTrip(prot: bv32)
    ensures ParseProtDescription(ProtDescription(prot)) == Some(prot)
  {
    var s := ProtDescription(prot);
    assert s[..3] == FlagChars(prot);
    FlagCharsRoundTrip(prot);
    if prot & !PROT_RWX != 0 {
      assert s[3..] == ExtraSuffix(prot);
      ExtraSuffixRoundTrip(prot);
    } else {
      OnlyLowBits(prot);
    }
  }

  /** A shared-memory attach renders as "r" followed by "w" unless attached
      read-only and "x" when attached executable, with no hex suffix. */
  lemma ShmProtDescription(flags: bv32)
    ensures ProtDescription(ShmFlagsToMmapProt(flags))
            == ['r', if flags & SHM_RDONLY == 0 then 'w' else '-', if flags & SHM_EXEC != 0 then 'x' else '-']
  {
  }
}
