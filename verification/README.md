# rr kernel metadata: siginfo translation and diagnostic names

rr (the record-and-replay debugger) keeps a small library of facts about the
Linux kernel interface in `src/kernel_metadata.cc`. This project models its
core in Dafny and proves properties of the model:

- **siginfo translation.** `convert_to_native_siginfo_arch<Arch>` turns the raw
  `siginfo_t` bytes that a tracee of architecture `Arch` produced into rr's native
  `siginfo_t`. If the architectures are the same, it copies the whole record.
  Otherwise it copies the three header integers and zeroes the payload union.
  It then copies, field by field (`SI_COPY`), the union member that the record's
  `si_code` (when it is `<= 0`) or `si_signo` (otherwise) selects. Each copy is a
  C assignment, so a field is truncated or extended to the native width.
  `convert_to_native_siginfo` picks the layout from the architecture tag. A
  record of the wrong size aborts.
- **names for diagnostics.** These functions give the names of signals, errno
  values, `si_code` values and ptrace events. Each falls back to a
  `"<kind>(<n>)"` spelling built with `%d`. Signals 32 to 64 print as
  `"SIGRT<n>"`.
- **flag helpers.**
  - the mmap protection that a SysV shared-memory attach implies;
  - the signals whose default action dumps core;
  - the `"rwx"` rendering of a protection mask, with a `" (0x...)"` suffix when
    other bits are set;
  - the space-separated list of XSAVE state components set in a feature mask.

The modules follow the program's structure:

- `Options` holds the option type.
- `Bytes` holds little-endian byte strings, C width conversion and in-place splicing.
- `Signals` holds the Linux signal and `si_code` numbers.
- `SigInfo` holds the record, the layouts and what a correct translation is.
- `SigInfoConvert` holds the translator itself. It is imperative and writes into
  an `array` the way the source writes its local `result`.
- `Numerals` holds `%d` and hex renderings with their parsers.
- `KernelNames` holds the name resolvers.
- `KernelFlags` holds the shm, core-dump and protection-string helpers.
- `Xsave` holds the XSAVE feature list.

The translator is proved against a declarative specification, `SigInfo.IsTranslation`.
That specification says:

- the header is the source's;
- each field of the selected member holds the source field converted to the
  native width;
- every other payload byte is zero;
- the bytes between the header and the payload keep what the storage held before.

Some renderings come with a parser, and the proofs show the two are inverse:
the `"<kind>(<n>)"` fallbacks and `"SIGRT<n>"` (read back with `Numerals.Unwrap`),
and the protection string (read back with `KernelFlags.ParseProtDescription`).
Such a printed value determines the number or mask it was printed from. The
macro names of named values have no parser. The XSAVE list drops every bit
outside 0x23ff, so it does not determine the mask.

## Model

| member | source | states |
|---|---|---|
| SigInfoConvert.ConvertArch | src/kernel_metadata.cc:484-558 | A wrong size is reported exactly when the input is not the source layout's size. Same-architecture input is returned byte for byte. Otherwise the result is the translation of the record (header copied, selected member converted, rest of payload zero). |
| SigInfoConvert.ConvertToNative | src/kernel_metadata.cc:560-563 | Dispatching on the architecture tag gives the conversion with that architecture's layout as source: same size check, identity for the native architecture, translation otherwise. |
| SigInfoConvert.NewResult | src/kernel_metadata.cc:498-505 | Before the switch, the fresh result holds the source header, the prior storage contents between header and payload, and an all-zero payload. |
| SigInfoConvert.CopySelected | src/kernel_metadata.cc:506-556 | The switch copies exactly the fields of the member that si_signo/si_code select, in the source's order, and nothing else. |
| SigInfoConvert.CopyKill | src/kernel_metadata.cc:508-511 | SI_USER copies the _kill member's fields. |
| SigInfoConvert.CopyRt | src/kernel_metadata.cc:512-517 | SI_QUEUE and SI_MESGQ copy the _rt member's fields. |
| SigInfoConvert.CopyTimer | src/kernel_metadata.cc:518-522 | SI_TIMER copies the _timer member's fields. |
| SigInfoConvert.CopySigChld | src/kernel_metadata.cc:528-534 | SIGCHLD copies the _sigchld member's fields. |
| SigInfoConvert.CopySigFault | src/kernel_metadata.cc:535-544 | The five fault signals copy the _sigfault member's fields. |
| SigInfoConvert.CopySigPoll | src/kernel_metadata.cc:545-548 | SIGPOLL copies the _sigpoll member's fields. |
| SigInfoConvert.CopySigSys | src/kernel_metadata.cc:549-553 | SIGSYS copies the _sigsys member's fields. |
| SigInfoConvert.CopyField | src/kernel_metadata.cc:482 | One SI_COPY: the native record becomes the old record with field f overwritten by the source field at the native width. |
| SigInfoConvert.Store | src/kernel_metadata.cc:502-505 | One assignment or memset writes its bytes at the offset and leaves every other byte unchanged. |
| SigInfo.Select | src/kernel_metadata.cc:506-556 | A member is chosen by si_code exactly when si_code <= 0. Case by case, in both directions: _kill exactly for SI_USER, _rt exactly for SI_QUEUE or SI_MESGQ, _timer exactly for SI_TIMER; with si_code > 0, _sigchld exactly for SIGCHLD, _sigfault exactly for the five fault signals, _sigpoll exactly for SIGPOLL, _sigsys exactly for SIGSYS. Anything else selects no member. |
| SigInfo.SelectKey | src/kernel_metadata.cc:506-556 | The outer switch on si_code decides alone when si_code <= 0: the signal does not matter. When si_code > 0 only the signal decides: any two positive codes select alike. |
| SigInfo.FieldsOf | src/kernel_metadata.cc:506-556 | The set of fields copied for a member is exactly the fields that belong to it. |
| SigInfo.MembersExact | src/kernel_metadata.cc:506-556 | Each member's copy list names every field of the member and no other, each once. |
| SigInfo.ClearedFilled | src/kernel_metadata.cc:498-505 | The record after the header copies and the memset satisfies the "nothing copied yet" state: header copied, gap stale, payload zero. |
| SigInfo.StoredCopies | src/kernel_metadata.cc:482 | After one SI_COPY of f, field f holds the converted source value. |
| SigInfo.StoredFrame | src/kernel_metadata.cc:482 | One SI_COPY changes no byte outside its field's native slot. |
| SigInfo.StoredKeepsField | src/kernel_metadata.cc:482 | A copy does not disturb an already copied field whose slot it does not overlap. |
| SigInfo.CopiedPrefixStep | src/kernel_metadata.cc:506-556 | Each SI_COPY in a case extends the sequence of copies by one. |
| SigInfo.CopiedPrefixKeeps | src/kernel_metadata.cc:506-556 | A byte outside the slots of the fields copied so far is untouched. |
| SigInfo.CopiedPrefixHolds | src/kernel_metadata.cc:506-556 | When a case copies distinct fields of one member, every field copied so far still holds its converted value. |
| SigInfo.CopiedMemberKeeps | src/kernel_metadata.cc:506-556 | Copying a member leaves every byte outside the member's slots as it was. |
| SigInfo.CopiedMemberHolds | src/kernel_metadata.cc:506-556 | Copying a member leaves each of its fields holding its converted source value. |
| SigInfo.CopiedTranslates | src/kernel_metadata.cc:498-556 | The header copy, memset and switch together meet the declarative translation. |
| SigInfo.TranslationUnique | src/kernel_metadata.cc:484-558 | For given prior storage contents, a record has at most one translation. |
| SigInfo.TranslationKeepsHeader | src/kernel_metadata.cc:502-504 | The translation's si_signo, si_errno and si_code equal the source's. |
| SigInfo.UnknownDiscriminantZeroPayload | src/kernel_metadata.cc:505-526 | A record whose si_signo/si_code select no member translates to an all-zero payload. |
| SigInfo.TranslatedFieldValue | src/kernel_metadata.cc:482 | Each copied field holds the source value modulo 2^(8·native width), read signed or unsigned by the field's C type. |
| SigInfo.TranslationIgnoresUnselectedBytes | src/kernel_metadata.cc:506-556 | Two records that agree on the header and on the selected member's fields translate alike. Bytes of other members never leak. |
| SigInfo.TranslationStaleOnlyInGap | src/kernel_metadata.cc:498-505 | Prior storage contents show only between the header and the payload. When the payload directly follows the header, the translation is fully determined. |
| Bytes.Resize | src/kernel_metadata.cc:482 | The assigned field has the native width. It keeps the source's low-order bytes, and any bytes beyond the source's width are the extension byte (0xff for a negative signed value, 0 otherwise). |
| Bytes.ResizeValue | src/kernel_metadata.cc:482 | A C assignment to a w-byte field stores the source value modulo 2^(8w), signed or unsigned as the source type. |
| Bytes.SignExtendPreservesValue | src/kernel_metadata.cc:482 | Widening a signed field keeps its signed value. |
| Bytes.SpliceAt | src/kernel_metadata.cc:502-505 | Writing bytes at an offset puts them in the window and keeps every byte outside it. |
| Numerals.ParseNatToString | src/kernel_metadata.cc:579 | Reading back the digits of n in any base from 2 to 16 gives n. |
| Numerals.NatToStringParseNat | src/kernel_metadata.cc:579 | A canonical digit string is the rendering of the number it denotes. |
| Numerals.DecimalExact | src/kernel_metadata.cc:127 | "%d" spellings and integers correspond one to one. |
| Numerals.HexExact | src/kernel_metadata.cc:579 | "0x"-prefixed lower-case hex spellings and natural numbers correspond one to one. |
| Numerals.UnwrapExact | src/kernel_metadata.cc:171 | A string has the fallback form prefix-%d-suffix of n exactly when it is that wrapping of n. |
| Numerals.UnwrapMismatch | src/kernel_metadata.cc:171 | A string that differs from the prefix at some position is no fallback name. |
| KernelNames.StandardSignalName | src/kernel_metadata.cc:131-163 | A macro name exists only for signals 1 to 31, and it begins with "SIG". |
| KernelNames.SignalName | src/kernel_metadata.cc:123-175 | Signals 1 to 64 print as a name beginning with "SIG". Every other number, 0 included, prints beginning with "signal(". |
| KernelNames.StandardSignalNames | src/kernel_metadata.cc:131-163 | Exactly the signals 1 to 31 have a macro name, and each starts with "SIG" followed by something other than 'R'. |
| KernelNames.SignalNameRealtime | src/kernel_metadata.cc:125-129 | A signal name reads "SIGRT<n>" exactly for 32 <= n <= 64, and n can be read back. |
| KernelNames.SignalNameFallback | src/kernel_metadata.cc:164-174 | A signal name is the "signal(<n>)" fallback exactly when n is outside 1..64, including the special-cased 0, and n can be read back. |
| KernelNames.ErrnoNameCstr | src/kernel_metadata.cc:182-319 | A name exists only for values 0 to 133, and never for 41 or 58. |
| KernelNames.ErrnoName | src/kernel_metadata.cc:321-329 | A value outside 0 to 133 prints as the "errno(<n>)" fallback. |
| KernelNames.ErrnoNameNonEmpty | src/kernel_metadata.cc:182-329 | Every value, named or not, prints as a non-empty string. |
| KernelNames.ErrnoNameZero | src/kernel_metadata.cc:184-185 | 0 is named "SUCCESS". |
| KernelNames.ErrnoNamesCover | src/kernel_metadata.cc:182-319 | Every errno from 1 to 133 has a name, except 41 and 58. |
| KernelNames.ErrnoNamesBelow | src/kernel_metadata.cc:182-319 | No negative value has an errno name. |
| KernelNames.ErrnoNamesAbove | src/kernel_metadata.cc:182-319 | No value above 133 has an errno name. |
| KernelNames.ErrnoNamesGaps | src/kernel_metadata.cc:182-319 | 41 and 58 have no errno name. |
| KernelNames.ErrnoNameFallback | src/kernel_metadata.cc:321-329 | A value without an errno name prints as "errno(<n>)", and n can be read back. |
| KernelNames.GenericCodeName | src/kernel_metadata.cc:332-342 | A signal-independent name exists exactly for SI_USER, SI_KERNEL, SI_QUEUE, SI_TIMER, SI_MESGQ, SI_ASYNCIO, SI_SIGIO, SI_TKILL and SI_ASYNCNL, and it begins with "SI_". |
| KernelNames.SignalCodeName | src/kernel_metadata.cc:344-411 | A per-signal name exists only for codes 1 to 8 delivered with SIGSEGV, SIGTRAP, SIGILL, SIGFPE, SIGBUS, SIGCHLD or SIGPOLL, and it begins with an upper-case letter. |
| KernelNames.SicodeName | src/kernel_metadata.cc:331-416 | Every name has at least four characters. A signal-independent code prints as its "SI_" name whatever the signal, because the first switch returns before the second. |
| KernelNames.SicodeNamesKnown | src/kernel_metadata.cc:331-411 | An si_code has a generic or a per-signal name exactly when it is in the known ranges for its signal. Generic names start with 'S'. Per-signal names never start with the fallback's 's'. |
| KernelNames.SicodeNameFallback | src/kernel_metadata.cc:412-416 | An si_code name is the "sicode(<n>)" fallback exactly when the code is unknown for the signal, and n can be read back. |
| KernelNames.GenericCodesIgnoreSignal | src/kernel_metadata.cc:332-342 | The signal-independent codes take precedence: their names do not depend on the signal. |
| KernelNames.PtraceEventMacroName | src/kernel_metadata.cc:43-55 | A macro name exists only for events 1 to 8 and 128. |
| KernelNames.PtraceEventName | src/kernel_metadata.cc:42-68 | Every event name, named or fallback, begins with "PTRACE_EVENT". |
| KernelNames.PtraceEventMacroNames | src/kernel_metadata.cc:43-56 | Exactly events 1 to 8 and 128 have a macro name, and each begins with the 13 characters "PTRACE_EVENT_". |
| KernelNames.PtraceEventNameFallback | src/kernel_metadata.cc:57-66 | An event name is the "PTRACE_EVENT(<n>)" fallback exactly when the event is unnamed, including the special-cased 0, and n can be read back. |
| KernelFlags.ShmFlagsToMmapProt | src/kernel_metadata.cc:418-421 | The protection is always readable. It is writable exactly when SHM_RDONLY is clear, executable exactly when SHM_EXEC is set, and has no other bits. |
| KernelFlags.IsCoredumpingSignal | src/kernel_metadata.cc:464-480 | Only signals from SIGQUIT to SIGSYS (3 to 31) dump core, and every fault signal does. |
| KernelFlags.CoredumpingSignals | src/kernel_metadata.cc:464-480 | Every fault signal dumps core. Every core-dumping signal is a standard named signal. SIGKILL, SIGTERM, SIGCHLD and the real-time signals do not dump core. |
| KernelFlags.ProtFlagsString | src/kernel_metadata.cc:565-582 | The rendering is the three flag characters plus, if other bits are set, " (HEX)" of the int sign-extended to 64 bits. Parsing it gives back the mask. The sign extension is an assumed reading of HEX, whose definition is not part of this model. |
| KernelFlags.ProtDescription | src/kernel_metadata.cc:565-582 | The rendering has at least three characters, each of the first three being its flag letter ('r', 'w', 'x') or '-'. It has exactly three when no bit besides the protection bits is set. |
| KernelFlags.FlagCharsRoundTrip | src/kernel_metadata.cc:566-576 | The three flag characters give back exactly the three protection bits. |
| KernelFlags.HexValueLow | src/kernel_metadata.cc:579 | HEX of an int prints its sign extension to 64 bits, whose low 32 bits are the int. |
| KernelFlags.ExtraSuffixRoundTrip | src/kernel_metadata.cc:578-580 | The " (0x...)" suffix gives back the whole mask. |
| KernelFlags.ParseProtDescriptionRoundTrip | src/kernel_metadata.cc:565-582 | The rendering determines the mask: two masks never print alike. |
| KernelFlags.ShmProtDescription | src/kernel_metadata.cc:418-421 | A shm attach renders as "r", then 'w' unless read-only, then 'x' when executable, with no suffix. |
| Xsave.XsaveFeatureString | src/kernel_metadata.cc:423-462 | The result is the names of the set recognised components, in bit order, separated by single spaces. |
| Xsave.AppendIfSet | src/kernel_metadata.cc:425-457 | One test of the chain appends the component's name and a space when its bit is set, and nothing otherwise. |
| Xsave.DropTrailingSpace | src/kernel_metadata.cc:458-460 | Dropping the last character of the space-terminated list gives the space-separated list. |
| Xsave.RenderedListed | src/kernel_metadata.cc:424-457 | The chain of tests appends exactly the listed names, each followed by a space. |
| Xsave.TerminatedJoin | src/kernel_metadata.cc:458-460 | The space-terminated list is empty for no names, and otherwise is the joined list plus one space. |
| Xsave.SplitJoin | src/kernel_metadata.cc:423-462 | Splitting a joined non-empty list of space-free names at its spaces gives the names back. |
| Xsave.FeatureStringEmpty | src/kernel_metadata.cc:423-462 | The string is empty exactly when no recognised bit (0x23ff) is set. |
| Xsave.FeatureStringSplits | src/kernel_metadata.cc:423-462 | A non-empty string splits back into the list of set components. |
| Xsave.FeatureListMasked | src/kernel_metadata.cc:423-462 | Bits outside 0x23ff do not change the list. |
| Xsave.FeatureListComplete | src/kernel_metadata.cc:423-462 | Every recognised component whose bit is set is named. |
| Xsave.FeatureListSound | src/kernel_metadata.cc:423-462 | Every named component has its bit set. |
| Xsave.ListedEmpty | src/kernel_metadata.cc:424-457 | The names listed from a table are empty exactly when none of its bits is set. |
| Xsave.ListedIgnoresMasked | src/kernel_metadata.cc:424-457 | Masking off bits outside every table bit does not change the list. |
| Xsave.ListedSound | src/kernel_metadata.cc:424-457 | Every listed name belongs to a table entry whose bit is set. |
| Xsave.ListedHasSetBits | src/kernel_metadata.cc:424-457 | Every table entry whose bit is set has its name listed. |
| Xsave.NoRecognisedBit | src/kernel_metadata.cc:424-457 | No bit of 0x23ff is set exactly when every one of the eleven tests fails. |

## Left out

- Layouts are abstract. The per-architecture `siginfo_t` layouts come from
  `kernel_abi.h`, which is not part of this model. A layout (`SigInfo.Profile`)
  gives:
  - the total size;
  - the payload offset;
  - each field's offset and width.

  Field signedness follows the Linux C types.
- Stale bytes in the gap. On the translated path the source never writes the
  bytes between the header and the payload union. One might expect a translated
  record to hold no stale bytes. By the code, this holds only when the union
  directly follows the header: the result is uninitialised storage
  (kernel_metadata.cc:492), and lines 502-505 write only the header and the
  payload. The model follows the code: those bytes keep
  the prior storage contents, passed in as `stale`. `TranslationStaleOnlyInGap`
  proves that nothing else depends on them.
- `FATAL()` is modelled as the `WrongSize` result. It aborts the process, and
  neither logging nor the abort is modelled.
- `RR_ARCH_FUNCTION` is modelled as a lookup of the layout by architecture tag.
- `HEX()` and `log.h` are not part of this model. HEX of an `int` is taken to
  print `"0x"` and the lower-case hex digits of the value converted to a 64-bit
  unsigned number.
- `KernelFlags.ParseProtDescription` accepts only the sign-extended 64-bit
  values that HEX of an int can print.
- `kernel_supplement.h` is not part of this model. PTRACE_EVENT_SECCOMP_OBSOLETE
  is taken to be 8, and the signal, errno and `si_code` numbers are the generic
  Linux ones.
- `syscall_name` and `is_sigreturn` are left out: the first is a generated
  table and the second calls into code outside this file.
- `ptrace_req_name` (kernel_metadata.cc:74-117) is left out. It switches on the
  per-architecture `Arch::` request constants of `kernel_abi.h`, which is not
  part of this model.
- `arch_name` (kernel_metadata.cc:30-40) is left out. It is a plain three-case
  switch over the architecture tag, but it is not part of the modelled core.
- The C strings' NUL terminators and the 100-byte `snprintf` buffers are not
  modelled. None of the names comes near that length.
- Name injectivity across kinds is not proved: two different errno values or
  signals could, as far as the proofs go, share a name. The proofs do show that
  every fallback spelling determines its number. They also show that named
  signals, si_codes and ptrace events never look like fallbacks. For errno
  names this last point is not proved.
- Xsave.XsaveFeatureString: the source's eleven inline `if`s are modelled as
  eleven calls of `AppendIfSet` over a table of bits and names. The final
  `substr` is modelled as `DropTrailingSpace`.
- Xsave.FeatureListSound: it names a component whose bit is set, but does not
  prove that the list has no duplicate names. That would need the names'
  distinctness, which is not stated.
