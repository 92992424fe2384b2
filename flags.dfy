/** Flag and number re-encodings between the legacy ABI and Linux: the
    open() mode table, the fcntl() command and lock-type tables, the
    F_GETFL bit translation and the F_SETFL flag word. */
module FlagCodec {
  import opened Abi

  // Linux open flags (asm-generic <fcntl.h>).
  const O_RDONLY: bv32 := 0x0
  const O_WRONLY: bv32 := 0x1
  const O_RDWR: bv32 := 0x2
  const O_CREAT: bv32 := 0x40
  const O_TRUNC: bv32 := 0x200
  const O_APPEND: bv32 := 0x400
  const O_NONBLOCK: bv32 := 0x800

  // Legacy open flag bits, as the open() table and F_GETFL use them.
  const UNIX_O_WRONLY: bv32 := 0x1
  const UNIX_O_RDWR: bv32 := 0x2
  const UNIX_O_NDELAY: bv32 := 0x4
  const UNIX_O_APPEND: bv32 := 0x8
  const UNIX_O_CREAT: bv32 := 0x100
  const UNIX_O_TRUNC: bv32 := 0x200

  /** The legacy bits F_GETFL reports. */
  const GETFL_BITS: bv32 := 0x10F

  // Linux fcntl commands and lock types (i386, 32-bit off_t).
  const F_DUPFD: int := 0
  const F_GETFL: int := 3
  const F_SETFL: int := 4
  const F_GETLK: int := 5
  const F_SETLK: int := 6
  const F_SETLKW: int := 7
  const F_RDLCK: int := 0
  const F_WRLCK: int := 1
  const F_UNLCK: int := 2

  /** The six legacy open() values the wrapper accepts. */
  predicate IsLegacyOpenMode(flags: int) {
    flags == 0x000 || flags == 0x001 || flags == 0x102 ||
    flags == 0x101 || flags == 0x109 || flags == 0x302
  }

  /** Reference translation: each legacy open bit to its Linux bit, independently. */
  function TranslateOpenBits(f: bv32): bv32 {
    (if f & UNIX_O_WRONLY != 0 then O_WRONLY else 0) |
    (if f & UNIX_O_RDWR != 0 then O_RDWR else 0) |
    (if f & UNIX_O_APPEND != 0 then O_APPEND else 0) |
    (if f & UNIX_O_CREAT != 0 then O_CREAT else 0) |
    (if f & UNIX_O_TRUNC != 0 then O_TRUNC else 0)
  }

  /** The `switch (flags)` of __unix_open: a lookup over six dense values;
      None stands for errx(EXIT_FAILURE, ...). Every accepted value is
      translated exactly as bit-by-bit translation would. */
  function OpenFlags(flags: int): (r: Option<bv32>)
    ensures r.Some? <==> IsLegacyOpenMode(flags)
    ensures r.Some? ==> r.value == TranslateOpenBits(flags as bv32)
  {
    match flags
    case 0x000 => Some(O_RDONLY)
    case 0x001 => Some(O_WRONLY)
    case 0x102 => Some(O_CREAT | O_RDWR)
    case 0x101 => Some(O_CREAT | O_WRONLY)
    case 0x109 => Some(O_CREAT | O_WRONLY | O_APPEND)
    case 0x302 => Some(O_CREAT | O_TRUNC | O_RDWR)
    case _ => None
  }

  /** The F_GETFL branch: Linux flag bits back to legacy positions; only
      the five bits the legacy program uses survive. */
  function GetflFlags(linuxflags: bv32): (r: bv32)
    ensures r & !GETFL_BITS == 0
    ensures (r & UNIX_O_WRONLY != 0) <==> (linuxflags & O_WRONLY != 0)
    ensures (r & UNIX_O_RDWR != 0) <==> (linuxflags & O_RDWR != 0)
    ensures (r & UNIX_O_NDELAY != 0) <==> (linuxflags & O_NONBLOCK != 0)
    ensures (r & UNIX_O_APPEND != 0) <==> (linuxflags & O_APPEND != 0)
    ensures (r & UNIX_O_CREAT != 0) <==> (linuxflags & O_CREAT != 0)
  {
    var f1: bv32 := if linuxflags & O_WRONLY != 0 then 1 else 0;
    var f2 := if linuxflags & O_RDWR != 0 then f1 | 2 else f1;
    var f3 := if linuxflags & O_NONBLOCK != 0 then f2 | 4 else f2;
    var f4 := if linuxflags & O_APPEND != 0 then f3 | 8 else f3;
    if linuxflags & O_CREAT != 0 then f4 | 0x100 else f4
  }

  /** Open translation followed by F_GETFL translation gives back every
      legacy bit the program opened with, except O_TRUNC. */
  lemma GetflUndoesOpen(flags: int)
    requires IsLegacyOpenMode(flags)
    ensures GetflFlags(OpenFlags(flags).value) == (flags as bv32) & GETFL_BITS
  {
  }

  /** `unix_cmd_table`: legacy fcntl command to Linux command; unset entries are 0. */
  const UNIX_CMD_TABLE: seq<int> :=
    [0, 0, 0, F_GETFL, F_SETFL, F_GETLK, F_SETLK, F_SETLKW,
     0, 0, 0, 0, 0, 0, 0, 0, 0, 0, 0, 0, 0, 0, 0, 0,
     0, 0, 0, 0, 0, 0, 0, 0]

  /** `unix_lck_table`: legacy lock type to Linux lock type; entry 0 is unset. */
  const UNIX_LCK_TABLE: seq<int> := [0, F_RDLCK, F_WRLCK, F_UNLCK]

  /** Which branch of __unix_fcntl's switch a legacy command reaches. */
  datatype FcntlCase = GetFl | SetFl | SetLk | Unknown(hostCmd: int)

  /** Translate through the table, then switch on the Linux command.
      Only legacy 3, 4 and 6 are handled; 5 and 7 are translated but have
      no case, and every other command translates to 0 (F_DUPFD). */
  function Dispatch(cmd: int): (c: FcntlCase)
    requires 0 <= cmd < 32
    ensures c == GetFl <==> cmd == 3
    ensures c == SetFl <==> cmd == 4
    ensures c == SetLk <==> cmd == 6
    ensures c.Unknown? ==> c.hostCmd == (if cmd == 5 then F_GETLK else if cmd == 7 then F_SETLKW else F_DUPFD)
  {
    var host := UNIX_CMD_TABLE[cmd];
    if host == F_GETFL then GetFl
    else if host == F_SETFL then SetFl
    else if host == F_SETLK then SetLk
    else Unknown(host)
  }

  /** The F_SETFL branch's flag word as written: `unixflags` is taken from
      the already translated command instead of from `arg`, and the append
      test reads the word being built, so `arg` never reaches the result.
      The word still holds only flags F_SETFL may change. */
  function SetflWordAsWritten(hostCmd: int, arg: bv32): (w: bv32)
    requires hostCmd == F_SETFL
    ensures w & !(O_NONBLOCK | O_APPEND) == 0
  {
    var unixflags := hostCmd as bv32;
    var w1: bv32 := if unixflags & UNIX_O_NDELAY != 0 then O_NONBLOCK else 0;
    if w1 & UNIX_O_APPEND != 0 then w1 | O_APPEND else w1
  }

  /** Whatever the program asks for, the flag word as written is exactly
      O_NONBLOCK, and it agrees with the intended word only for the one
      request "non-blocking, not append". */
  lemma SetflAsWrittenIgnoresArgument(arg: bv32)
    ensures SetflWordAsWritten(F_SETFL, arg) == O_NONBLOCK
    ensures SetflWordAsWritten(F_SETFL, arg) == SetflWord(arg)
            <==> arg & (UNIX_O_NDELAY | UNIX_O_APPEND) == UNIX_O_NDELAY
  {
  }

  /** The evidently intended F_SETFL word: the legacy argument's
      non-blocking and append bits moved to their Linux positions. */
  function SetflWord(arg: bv32): (w: bv32)
    ensures (w & O_NONBLOCK != 0) <==> (arg & UNIX_O_NDELAY != 0)
    ensures (w & O_APPEND != 0) <==> (arg & UNIX_O_APPEND != 0)
    ensures w & !(O_NONBLOCK | O_APPEND) == 0
  {
    var w1: bv32 := if arg & UNIX_O_NDELAY != 0 then O_NONBLOCK else 0;
    if arg & UNIX_O_APPEND != 0 then w1 | O_APPEND else w1
  }

  /** Setting flags and reading them back through F_GETFL returns exactly
      the changeable bits of the argument. */
  lemma SetflThenGetfl(arg: bv32)
    ensures GetflFlags(SetflWord(arg)) == arg & (UNIX_O_NDELAY | UNIX_O_APPEND)
  {
  }

  /** The legacy `struct unixflock` (the reserved padding is not modelled). */
  datatype UnixFlock = UnixFlock(ltype: u16, whence: u16, start: u32, len: u32, sysid: u32, pid: u16)

  /** Linux `struct flock` (i386: short type and whence, 32-bit off_t). */
  datatype HostFlock = HostFlock(ltype: i16, whence: i16, start: i32, len: i32, pid: int)

  /** The F_SETLK branch: a zeroed flock with type translated and start,
      length and whence copied; the legacy sysid and pid are dropped. */
  function DecodeLock(ufl: UnixFlock): (lfl: HostFlock)
    requires ufl.ltype <= 3
    ensures ufl.ltype == 1 ==> lfl.ltype == F_RDLCK
    ensures ufl.ltype == 2 ==> lfl.ltype == F_WRLCK
    ensures ufl.ltype == 3 ==> lfl.ltype == F_UNLCK
    ensures lfl.pid == 0
    // the signed host fields carry the legacy bits unchanged, which fixes
    // them (S32Unique, S16Unique)
    ensures U32(lfl.start) == ufl.start && U32(lfl.len) == ufl.len && U16(lfl.whence) == ufl.whence
  {
    HostFlock(UNIX_LCK_TABLE[ufl.ltype], S16(ufl.whence), S32(ufl.start), S32(ufl.len), 0)
  }

  /** Reference inverse of the lock-type table. */
  function LegacyLockType(hostType: int): Option<u16> {
    if hostType == F_RDLCK then Some(1)
    else if hostType == F_WRLCK then Some(2)
    else if hostType == F_UNLCK then Some(3)
    else None
  }

  /** The three legacy lock types round-trip through the table, and the
      unset entry 0 is read as a read lock (Linux F_RDLCK is 0). */
  lemma LockTypeRoundTrip(ufl: UnixFlock)
    requires ufl.ltype <= 3
    ensures 1 <= ufl.ltype ==> LegacyLockType(DecodeLock(ufl).ltype) == Some(ufl.ltype)
    ensures ufl.ltype == 0 ==> DecodeLock(ufl).ltype == F_RDLCK
  {
  }
}
