# 123elf system-call wrappers, modelled in Dafny

123elf runs the System V/i386 build of Lotus 1-2-3 on Linux. The legacy
binary's system calls land in `wrappers.c`, which translates arguments,
structure layouts, flag encodings and errno between the two ABIs. This
project models the translation core of that file:

- **Terminal-mode engine** (`terminal.dfy`, `facade.dfy`): `__unix_ioctl`
  with `termios_wants_rawmode` and `termios_set_flags`. Lotus asks for raw
  or cooked keyboard mode only by clearing or keeping two "magic" bits
  (`UNIX_TABDLY` in the output flags, `UNIX_ICRNL` in the input flags)
  that the engine ORs into every TCGETS answer. The engine state is the
  static `rawmode`, the static pre-raw snapshot `restore`, and the host
  terminal configuration. `SetAttrs` and `GetAttrs` are the transition
  and query as functions. The `Emulator` methods `Ioctl`, `SetTermios`
  and `GetTermios` are proved against them. `cfmakeraw` is the
  uninterpreted parameter `makeRaw`, so every result holds for any
  `cfmakeraw`.
- **Flag codecs** (`flags.dfy`): the `__unix_open` value table, the
  `unix_cmd_table` and `unix_lck_table` lookups, the F_GETFL bit
  translation, the F_SETFL flag word, and the lock decode.
- **Structure codecs** (`stat.dfy`, `dirent.dfy`): `translate_linux_stat`
  narrows each field and rebuilds the mode. `__unix_readdir` fills the
  static record and copies the name with `strncpy` into 256 bytes, in
  place, by a loop on the array.
- **Facade** (`facade.dfy`): the `Emulator` class holds the process-wide
  state (`__unix_errno`, the engine statics, the host terminal, the
  static dirent). Its methods model the errno conventions of `ioctl`,
  `fcntl`, `stat`, `fstat`, `read` and `readdir`. `Open`, `Sysi86` and
  `KeyFixup` are pure.

Most host system calls are parameters: whether they succeed, what
stat/fstat/readdir/read/fcntl produced, and the host errno left behind.
The terminal is the exception. The host configuration is the field
`Emulator.tty`. `tcgetattr` reads it, and a successful `tcsetattr`
replaces it with exactly the struct it was given. Whether each call
succeeds is a parameter. `Open` yields the `open()` call that
`__unix_open` makes, not that call's result. `err()`/`errx()` with
`EXIT_FAILURE` is the outcome `Exit`.

Constants whose headers are not part of this model take these values:

- `unixterm.h`: the System V i386 values. `UNIX_TABDLY = 0x1800`,
  `UNIX_ICRNL = 0x100`, `UNIX_VMIN = 4`, `UNIX_VTIME = 5`, 19 control
  characters, 32-bit flag words.
- Linux: the asm-generic values for `O_*`. The i386 `F_*` values without
  large-file support (`F_SETLK = 6`, 32-bit `off_t`). `F_RDLCK = 0`,
  `TCGETS/TCSETS/TCSETSW = 0x5401/0x5402/0x5403`.

Some results depend on these values:

- The `O_*` flags and the legacy open bits must each be a single bit, with
  no two overlapping. `FlagCodec.OpenFlags`, `FlagCodec.GetflFlags`,
  `FlagCodec.GetflUndoesOpen`, `FlagCodec.SetflWord`,
  `FlagCodec.SetflThenGetfl` and `FlagCodec.SetflWordAsWritten` need this.
- The F_SETFL finding below needs `F_SETFL = 4` exactly.
- `FlagCodec.LockTypeRoundTrip` says an unset `unix_lck_table` entry reads
  as a read lock. This needs `F_RDLCK = 0`.
- `FlagCodec.Dispatch` needs the `F_*` commands to be distinct.
- `StatCodec.TypeCode` needs the five `S_IF*` codes of each ABI to be
  distinct, non-zero values inside the `0xF000` type nibble.
- The terminal results need `VTIME` and `VMIN` to be distinct slots on
  each side, within the arrays.

The model follows what `wrappers.c` does:

- `termios_wants_rawmode` is true when both magic bits are still set. A
  true result makes the caller leave raw mode, so the name is inverted.
- Legacy fcntl commands 5 (F_GETLK) and 7 (F_SETLKW) are in the table,
  but no `case` handles them, so they abort.
- On a failing `tcsetattr`, `rawmode` and `restore` have already been
  updated before the process exits, while the terminal has not changed.
- `__unix_open` never sets `__unix_errno`.
- `fcntl(F_GETFL)` and the pass-through `read` copy errno even on
  success.

## Model

| member | source | states |
|---|---|---|
| `Abi.S16` | wrappers.c:251 | a legacy 16-bit `l_whence` read as a host `short` is in the signed range and converts back to the same 16 bits |
| `Abi.S16Unique` | wrappers.c:251 | no other signed 16-bit value has those 16 bits, so the host `l_whence` is fixed by the legacy one |
| `Abi.S32` | wrappers.c:249-250 | a legacy 32-bit start/length read as a 32-bit `off_t` is in the signed range and converts back to the same bits |
| `Abi.S32Unique` | wrappers.c:249-250 | no other signed 32-bit value has those 32 bits, so the host start and length are fixed by the legacy ones |
| `Terminal.WantsRawMode` | wrappers.c:49-63 | true exactly when the whole `UNIX_TABDLY` mask is in the output flags and `UNIX_ICRNL` is in the input flags; a partial TABDLY mask already gives false |
| `Terminal.WithMagicFlags` | wrappers.c:65-73 | ORing the magic bits makes any struct read as a cooked request and changes no other bit or field |
| `Terminal.SetFlags` | wrappers.c:65-73 | the caller's struct afterwards equals `WithMagicFlags` of its old contents |
| `Terminal.SetTimeouts` | wrappers.c:135-137 | only the VTIME and VMIN slots change; every other field and control character is kept |
| `Terminal.RawConfig` | wrappers.c:123-128 | the installed raw configuration has BRKINT, IGNBRK and ISIG set; all else is what `cfmakeraw` produced |
| `Terminal.SetAttrs` | wrappers.c:101-142 | raw afterwards iff a magic bit was cleared; the snapshot is taken only on cooked-to-raw; entering installs the raw form of the current configuration; leaving restores the snapshot; staying moves only VTIME/VMIN; the requested VTIME/VMIN always land |
| `Terminal.GetAttrs` | wrappers.c:145-160 | a TCGETS answer always reads as cooked (`WantsRawMode`); it carries the host VTIME/VMIN in the legacy slots, every other control character and flag word is zero apart from the two magic bits |
| `Terminal.SetAttrsKeepsInvariant` | wrappers.c:108-137 | while raw, the live terminal stays the raw form of the snapshot up to VTIME/VMIN, across every set request |
| `Terminal.RawModeKeepsSignals` | wrappers.c:126-128 | under that invariant, raw mode always keeps ISIG, BRKINT and IGNBRK on the live terminal |
| `Terminal.RawRoundTrip` | wrappers.c:108-137 | cooked, then raw, then cooked leaves the host configuration equal to the pre-raw one except VTIME/VMIN, with that configuration as the snapshot |
| `Terminal.SetAttrsIdempotent` | wrappers.c:108-137 | repeating a set request gives the same state as issuing it once; a second raw request takes no second snapshot |
| `Terminal.EchoedQueryIsCooked` | wrappers.c:49-160 | writing back an unmodified TCGETS answer asks for cooked mode, and when already cooked leaves the whole state unchanged |
| `Terminal.ClearedMagicBitRequestsRaw` | wrappers.c:49-73 | clearing any one bit of either magic mask in a TCGETS answer enters raw mode |
| `Terminal.TimeoutsRoundTrip` | wrappers.c:135-156 | the VTIME/VMIN a set request installs are those the next TCGETS reports |
| `FlagCodec.OpenFlags` | wrappers.c:349-358 | exactly the six legacy values are accepted, and each maps to the bit-by-bit translation of its legacy bits; every other value aborts |
| `FlagCodec.GetflFlags` | wrappers.c:211-223 | the result has only bits in {1, 2, 4, 8, 0x100}, each set iff the matching Linux flag (WRONLY, RDWR, NONBLOCK, APPEND, CREAT) is set |
| `FlagCodec.GetflUndoesOpen` | wrappers.c:212-221 | reading back the Linux flags of any accepted open value through F_GETFL gives the legacy value minus O_TRUNC |
| `FlagCodec.Dispatch` | wrappers.c:184-200 | only legacy commands 3, 4 and 6 reach a handled case; 5 and 7 reach F_GETLK/F_SETLKW and every other command 0, all unhandled |
| `FlagCodec.SetflWordAsWritten` | wrappers.c:225-233 | the F_SETFL word as written holds only flags F_SETFL may change (O_NONBLOCK, O_APPEND) |
| `FlagCodec.SetflAsWrittenIgnoresArgument` | wrappers.c:225-233 | as written, the F_SETFL word is exactly O_NONBLOCK whatever the argument, and equals the intended word only when the argument asks for non-blocking without append |
| `FlagCodec.SetflWord` | wrappers.c:225-233 | corrected F_SETFL word: O_NONBLOCK iff the argument's 0x4 bit is set, O_APPEND iff its 0x8 bit is set, nothing else |
| `FlagCodec.SetflThenGetfl` | wrappers.c:212-233 | the corrected F_SETFL word read back through F_GETFL gives exactly the changeable bits of the argument |
| `FlagCodec.DecodeLock` | wrappers.c:243-251 | types 1/2/3 become F_RDLCK/F_WRLCK/F_UNLCK; start, length and whence are the signed host values with the same bits (unique by `S32Unique`/`S16Unique`); the host pid is zero, and the legacy sysid and pid are dropped |
| `FlagCodec.LockTypeRoundTrip` | wrappers.c:191-195 | the three legacy lock types round-trip through the table, and the unset entry 0 decodes as a read lock |
| `StatCodec.Permissions` | wrappers.c:292 | each of the nine permission bits is set iff it is set in the host mode, and no other bit is set |
| `StatCodec.TranslateStat` | wrappers.c:286-312 | `pad` is zero; each 16-bit field other than `mode` and `pad` is the host value mod 2^16, and size and times are the host values mod 2^32 |
| `StatCodec.TypeCode` | wrappers.c:301-309 | the code lies in the type nibble and the legacy reading of it is the host's file type: REG, DIR, LNK, BLK and CHR map to themselves, others to no type bits |
| `StatCodec.TranslatedModeMeaning` | wrappers.c:292-309 | the translated mode reads as the host's file type, keeps exactly the host's nine permission bits, and has no other bits; unsupported types get no type bits |
| `Dirent.StrLen` | wrappers.c:470 | the length at which `strncpy` stops: every earlier byte is non-zero and the byte there is zero |
| `Dirent.StrLenIs` | wrappers.c:470 | the terminator position is unique |
| `Dirent.StrNCpy` | wrappers.c:470 | the destination holds the source's bytes up to its terminator or n, and zeros after them |
| `Dirent.ShortNameRoundTrip` | wrappers.c:470 | a name shorter than the buffer reads back from it as the same C string |
| `Dirent.LongNameTruncated` | wrappers.c:470 | a name of at least n bytes is cut to exactly n bytes with no terminator |
| `Dirent.CopyName` | wrappers.c:470 | the loop leaves `StrNCpy(src, n)` in the first n array slots and touches nothing past them |
| `Dirent.TranslateDirent` | wrappers.c:462-470 | inode and record length mod 2^16, offset mod 2^32, the type widened; the name holds the first min(len, 256) bytes, then zeros; it is terminated when shorter than 256 and has no terminator otherwise |
| `Facade.SetActionOf` | wrappers.c:86-101 | TCSETSW uses TCSADRAIN, TCSETS uses TCSANOW |
| `Facade.KeyFixup` | wrappers.c:397-404 | DEL becomes backspace, every other byte is unchanged, and DEL never reaches the program |
| `Facade.Sysi86` | wrappers.c:420-428 | only command 40 succeeds and stores FP_387 (3); any other returns -1 and stores nothing |
| `Facade.Open` | wrappers.c:344-360 | the remapped path is opened with the translated flags; the mode is passed iff O_CREAT is among them; unrecognised flags abort |
| `Facade.FcntlHostCall` | wrappers.c:182-263 | commands 3, 4 and 6 become F_GETFL, F_SETFL handed the address of a word holding O_NONBLOCK, and F_SETLK with the decoded lock; all others abort |
| `Facade.Emulator.constructor` | wrappers.c:78-80 | the engine starts cooked with a zero snapshot, and the dirent record starts zeroed |
| `Facade.Emulator.Ioctl` | wrappers.c:75-170 | NULL argument: -1 and errno untouched. TCSETS/TCSETSW: the `SetAttrs` transition, returning 0, or an abort if tcgetattr/tcsetattr fails. TCGETS: the `GetAttrs` answer, returning 0. 0x7602, 0x7603, 0x4B01 and unknown requests: -1 with errno copied. The raw-mode invariant is kept. |
| `Facade.Emulator.SetTermios` | wrappers.c:96-144 | the TCSETS/TCSETSW branch computes exactly `SetAttrs`; on a tcsetattr failure the statics are updated but the terminal is not |
| `Facade.Emulator.GetTermios` | wrappers.c:145-160 | the zeroed and filled caller struct equals `GetAttrs` of the live terminal |
| `Facade.Emulator.Fcntl` | wrappers.c:182-263 | F_GETFL copies errno always and returns -1 or the translated flags; F_SETFL/F_SETLK return 0, or -1 with errno copied; other commands abort |
| `Facade.Emulator.Stat` | wrappers.c:314-330 | failure: -1 with errno copied and no record; success: 0, the translated record, errno reset to 0 |
| `Facade.Emulator.Fstat` | wrappers.c:332-342 | as stat, but success leaves errno as it was |
| `Facade.Emulator.Read` | wrappers.c:379-418 | a one-byte terminal read delivers the fixed-up key and keeps errno, or passes a 0/-1 result on with errno copied; other reads pass through and copy errno |
| `Facade.Emulator.Readdir` | wrappers.c:452-477 | the static record becomes `TranslateDirent` of the host entry with errno kept; otherwise it is all zero and NULL is returned, with errno 0 at the end of the stream and the host errno on an error |

## Findings

| source | as written | input that shows it | evidently intended | confidence | as-written member | corrected member |
|---|---|---|---|---|---|---|
| wrappers.c:226-233 | the F_SETFL flag word is built from the translated command `cmd` (always 4), not from `arg`; the append test reads the word being built | legacy `fcntl(fd, 4, 8)` (append) stores O_NONBLOCK and no O_APPEND in the word; so does `fcntl(fd, 4, 0)`. Line 235 then hands Linux the word's address (`&linuxflags`), not the word, so the flags Linux sets come from that address | the 0x4 bit of `arg` gives O_NONBLOCK and the 0x8 bit gives O_APPEND | high; not executed | `FlagCodec.SetflAsWrittenIgnoresArgument` | `FlagCodec.SetflThenGetfl` |

`Facade.FcntlHostCall` and `Facade.Emulator.Fcntl` record the F_SETFL call
as the source makes it: the address of the flag word, and the as-written
word stored there. `FlagCodec.SetflWord` is the corrected translation, and
`SetflThenGetfl` proves it against F_GETFL.

## Left out

- The constructor/destructor that snapshot and restore the terminal around
  the process lifetime (wrappers.c:33-47): process-lifecycle I/O outside the core.
- The host calls `read`, `isatty`, `fcntl`, `stat`, `fstat` and `readdir`
  are not modelled. Their success and their results are parameters. The
  model has one terminal, so the `fd` of ioctl is not modelled.
- `Facade.Emulator.SetTermios`: assumes that nothing but these wrappers
  changes the host terminal. It also assumes that a successful `tcsetattr`
  installs the whole struct it was given. POSIX lets `tcsetattr` succeed
  when only some of the changes were applied. `Terminal.RawRoundTrip`,
  `Terminal.SetAttrsIdempotent` and `Terminal.EchoedQueryIsCooked` hold
  for the live terminal only under these assumptions.
- `Facade.Open`: the value `open()` returns, which `__unix_open` returns
  unchanged, is not modelled. The model gives only the call that is made.
- `cfmakeraw`: uninterpreted (the parameter `makeRaw`), since it is glibc's.
- `map_unix_pathname` is not part of this model: it is the opaque
  parameter `mapPath` of `Open`. `Stat` takes the host result for the
  already remapped path.
- `__unix_uname`, `__unix_times`, `__unix_access`: pass-throughs with no
  translation logic beyond copying errno.
- `warn`/`warnx` diagnostics: no effect on results. For this reason the
  0x7602/0x7603/0x4B01 requests and unknown requests are one case.
- Byte layout and packing of `unixstat`, `unixflock` and `unixdirent`:
  they are modelled as records of fixed-width fields. The reserved
  `l_pad` of `unixflock` is not modelled.
- `Facade.FcntlHostCall`: the F_SETFL call hands Linux the address of the
  flag word (`&linuxflags`), and Linux reads that address as the flags. The
  address is the opaque parameter `wordAddr`. The model does not say which
  flags Linux then sets, because that depends on the stack layout.
- `Facade.Emulator.Fcntl`: records the same F_SETFL call as
  `Facade.FcntlHostCall`. Which flags Linux sets from the address is not
  modelled; only whether the call returned 0 is a parameter.
- `Facade.Emulator.Readdir`: the host errno is not a field of the model.
  Its reset to 0 before `readdir` is modelled by what `__unix_errno`
  becomes at the end of the stream.
- `Facade.Emulator.Read`: the bytes a non-terminal read stores on failure
  are not modelled (reported as none).
- `Dirent.StrNCpy`: a source name without a terminator is treated as ending
  at the end of the sequence. The C code would read past the array.
