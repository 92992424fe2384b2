/** The entry points the legacy binary calls. The process-wide statics of
    the wrappers (the legacy errno `__unix_errno`, the terminal engine's
    `rawmode` and `restore`, the reused directory record `uent`) and the
    host terminal configuration that tcgetattr/tcsetattr read and write
    are the fields of one Emulator object. Each host system call appears
    as parameters: whether it succeeded, what it produced, and the host
    errno it left. */
module Facade {
  import opened Abi
  import opened Terminal
  import opened FlagCodec
  import opened StatCodec
  import opened Dirent

  // ioctl request codes handled by __unix_ioctl.
  const TCGETS: int := 0x5401
  const TCSETS: int := 0x5402
  const TCSETSW: int := 0x5403

  const STDIN_FILENO: int := 0
  const DEL: byte := 0x7F
  const BS: byte := 0x08
  const SI86FPHW: int := 40
  const FP_387: u32 := 3

  /** The optional_actions argument of tcsetattr. */
  datatype SetAction = TcsaNow | TcsaDrain

  /** A set-attributes request, and the tcsetattr action it uses. */
  function SetActionOf(request: int): (a: Option<SetAction>)
    ensures a == Some(TcsaDrain) <==> request == TCSETSW
    ensures a == Some(TcsaNow) <==> request == TCSETS
  {
    if request == TCSETSW then Some(TcsaDrain)
    else if request == TCSETS then Some(TcsaNow)
    else None
  }

  /** The one-byte keyboard fixup of __unix_read: DEL becomes backspace. */
  function KeyFixup(key: byte): (r: byte)
    ensures r != DEL
    ensures key != DEL ==> r == key
    ensures key == DEL ==> r == BS
  {
    match key
    case 0x7F => BS
    case _ => key
  }

  /** __unix_sysi86: only the floating-point query is answered (x87
      present); the result is the return value and what is stored in *result. */
  function Sysi86(cmd: int): (r: (int, Option<u32>))
    ensures r.0 == 0 <==> cmd == SI86FPHW
    ensures r.0 != 0 ==> r.0 == -1 && r.1 == None
    ensures r.0 == 0 ==> r.1 == Some(FP_387)
  {
    if cmd != SI86FPHW then (-1, None) else (0, Some(FP_387))
  }

  /** The host open() call __unix_open makes: the remapped path, the Linux
      flags, and the mode, which is passed only with the create variants. */
  datatype OpenCall = OpenCall(path: string, flags: bv32, mode: Option<int>)

  /** __unix_open; None stands for errx(EXIT_FAILURE, ...). The legacy
      errno is not touched. */
  function Open(mapPath: string -> string, pathname: string, flags: int, mode: int): (r: Option<OpenCall>)
    ensures r.Some? <==> IsLegacyOpenMode(flags)
    ensures r.Some? ==> r.value.path == mapPath(pathname) && OpenFlags(flags) == Some(r.value.flags)
    ensures r.Some? ==> (r.value.mode.Some? <==> r.value.flags & O_CREAT != 0)
    ensures r.Some? && r.value.mode.Some? ==> r.value.mode.value == mode
  {
    var path := mapPath(pathname);
    match OpenFlags(flags)
    case None => None
    case Some(hostFlags) =>
      if flags == 0x000 || flags == 0x001 then Some(OpenCall(path, hostFlags, None))
      else Some(OpenCall(path, hostFlags, Some(mode)))
  }

  /** The `void *arg` of __unix_fcntl: its value as a word, and the legacy
      lock it points at, when it points at one. */
  datatype FcntlArg = FcntlArg(word: bv32, lock: Option<UnixFlock>)

  /** The host fcntl() call __unix_fcntl makes. F_SETFL is handed the
      address of the local flag word (`&linuxflags`), not the word itself;
      `word` is what is stored at that address. */
  datatype FcntlCall = GetFlCall | SetFlCall(address: int, word: bv32) | SetLkCall(lock: HostFlock)

  /** Which host call a legacy fcntl request becomes; None is the fatal
      unknown-command path. `wordAddr` is the stack address of the F_SETFL
      flag word, which the model does not know. */
  function FcntlHostCall(cmd: int, arg: FcntlArg, wordAddr: int): (c: Option<FcntlCall>)
    requires 0 <= cmd < 32
    requires Dispatch(cmd) == SetLk ==> arg.lock.Some? && arg.lock.value.ltype <= 3
    ensures c.None? <==> cmd != 3 && cmd != 4 && cmd != 6
    ensures cmd == 3 ==> c == Some(GetFlCall)
    ensures cmd == 4 ==> c == Some(SetFlCall(wordAddr, O_NONBLOCK))
    ensures cmd == 6 ==> c == Some(SetLkCall(DecodeLock(arg.lock.value)))
  {
    match Dispatch(cmd)
    case GetFl => Some(GetFlCall)
    case SetFl => Some(SetFlCall(wordAddr, SetflWordAsWritten(F_SETFL, arg.word)))
    case SetLk => Some(SetLkCall(DecodeLock(arg.lock.value)))
    case Unknown(_) => None
  }

  /** Everything the process-wide state of the wrappers holds. */
  class Emulator {
    /** `__unix_errno`, the legacy program's view of errno. */
    var errno: int
    /** The static `rawmode` of __unix_ioctl. */
    var rawmode: bool
    /** The static `restore` of __unix_ioctl: the pre-raw configuration. */
    var restore: HostTermios
    /** The host terminal's configuration, as tcgetattr reports it. */
    var tty: HostTermios
    /** cfmakeraw, a library routine the model leaves uninterpreted. */
    const makeRaw: HostTermios -> HostTermios
    /** The static `uent` of __unix_readdir. */
    const uent: UnixDirent

    ghost predicate Valid()
      reads this
    {
      uent.name.Length == NAME_MAX && RawInvariant(makeRaw, State())
    }

    function State(): EngineState
      reads this
    {
      EngineState(rawmode, restore, tty)
    }

    constructor (tty0: HostTermios, errno0: int, makeRaw: HostTermios -> HostTermios)
      ensures Valid()
      ensures State() == EngineState(false, ZeroHostTermios(), tty0) && errno == errno0
      ensures this.makeRaw == makeRaw
      ensures fresh(uent) && fresh(uent.name) && uent.Value() == ZeroDirent()
    {
      errno := errno0;
      rawmode := false;
      restore := ZeroHostTermios();
      tty := tty0;
      this.makeRaw := makeRaw;
      uent := new UnixDirent();
    }

    /** __unix_ioctl. `getOk`/`setOk` say whether tcgetattr/tcsetattr
        succeed; `hostErrno` is the host errno at the failure return.
        `action` is the tcsetattr action used, when tcsetattr is called. */
    method Ioctl(request: int, argp: UnixTermios?, getOk: bool, setOk: bool, hostErrno: int)
      returns (outcome: Outcome, action: Option<SetAction>)
      requires Valid()
      modifies this, argp
      ensures outcome.Return? ==> Valid()
      // a NULL argument fails without touching errno
      ensures argp == null ==> outcome == Return(-1) && action == None && unchanged(this)
      // TCSETS / TCSETSW: the engine's transition
      ensures argp != null && SetActionOf(request).Some? ==>
        var s' := SetAttrs(makeRaw, old(State()), old(argp.Value()));
        && unchanged(argp) && errno == old(errno)
        && (if !getOk then outcome == Exit && action == None && State() == old(State())
            else
              && action == SetActionOf(request)
              && rawmode == s'.rawmode && restore == s'.restore
              && (if setOk then outcome == Return(0) && tty == s'.tty
                  else outcome == Exit && tty == old(tty)))
      // TCGETS: the translated query, state untouched
      ensures argp != null && request == TCGETS ==>
        && unchanged(this) && action == None
        && (if getOk then outcome == Return(0) && argp.Value() == GetAttrs(tty)
            else outcome == Exit && unchanged(argp))
      // 0x7602, 0x7603, 0x4B01 and unknown requests: failure through errno
      ensures argp != null && SetActionOf(request).None? && request != TCGETS ==>
        && outcome == Return(-1) && action == None && errno == hostErrno
        && State() == old(State()) && unchanged(argp)
    {
      if argp == null {
        return Return(-1), None;
      }
      if request == TCSETSW || request == TCSETS {
        outcome, action := SetTermios(request, argp, getOk, setOk);
      } else if request == TCGETS {
        outcome := GetTermios(argp, getOk);
        action := None;
      } else {
        errno := hostErrno;
        outcome, action := Return(-1), None;
      }
    }

    /** The TCSETS/TCSETSW case of __unix_ioctl. */
    method SetTermios(request: int, argp: UnixTermios, getOk: bool, setOk: bool)
      returns (outcome: Outcome, action: Option<SetAction>)
      requires Valid() && SetActionOf(request).Some?
      modifies this`rawmode, this`restore, this`tty
      ensures outcome.Return? ==> Valid()
      ensures var s' := SetAttrs(makeRaw, old(State()), argp.Value());
        if !getOk then outcome == Exit && action == None && State() == old(State())
        else
          && action == SetActionOf(request)
          && rawmode == s'.rawmode && restore == s'.restore
          && (if setOk then outcome == Return(0) && tty == s'.tty
              else outcome == Exit && tty == old(tty))
    {
      var act := TcsaNow;
      if request == TCSETSW {
        act := TcsaDrain;
      }
      if !getOk {
        return Exit, None;
      }
      ghost var s0 := State();
      var tio := tty;
      if WantsRawMode(argp.Value()) {
        if rawmode {
          tio := restore;
        }
        rawmode := false;
      } else {
        if !rawmode {
          restore := tio;
          tio := makeRaw(tio);
          tio := tio.(iflag := tio.iflag | BRKINT | IGNBRK);
          tio := tio.(lflag := tio.lflag | ISIG);
        }
        rawmode := true;
      }
      tio := tio.(cc := tio.cc[VTIME := argp.cc[UNIX_VTIME]]);
      tio := tio.(cc := tio.cc[VMIN := argp.cc[UNIX_VMIN]]);
      ghost var s' := SetAttrs(makeRaw, s0, argp.Value());
      assert tio == s'.tty;
      if !setOk {
        return Exit, Some(act);
      }
      tty := tio;
      SetAttrsKeepsInvariant(makeRaw, s0, argp.Value());
      return Return(0), Some(act);
    }

    /** The TCGETS case of __unix_ioctl. */
    method GetTermios(argp: UnixTermios, getOk: bool) returns (outcome: Outcome)
      modifies argp
      ensures if getOk then outcome == Return(0) && argp.Value() == GetAttrs(tty)
              else outcome == Exit && unchanged(argp)
    {
      if !getOk {
        return Exit;
      }
      var tio := tty;
      argp.iflag, argp.oflag, argp.cflag, argp.lflag := 0, 0, 0, 0;
      argp.cc := ZeroLegacyTermios().cc;
      argp.cc := argp.cc[UNIX_VTIME := tio.cc[VTIME]];
      argp.cc := argp.cc[UNIX_VMIN := tio.cc[VMIN]];
      SetFlags(argp);
      return Return(0);
    }

    /** __unix_fcntl. `hostFlags` is what fcntl(F_GETFL) returned (None for
        -1), `hostOk` whether the F_SETFL/F_SETLK call returned 0,
        `hostErrno` the host errno after the call, and `wordAddr` the address
        of the F_SETFL flag word. */
    method Fcntl(cmd: int, arg: FcntlArg, wordAddr: int, hostFlags: Option<bv32>, hostOk: bool, hostErrno: int)
      returns (outcome: Outcome, call: Option<FcntlCall>)
      requires 0 <= cmd < 32
      requires Dispatch(cmd) == SetLk ==> arg.lock.Some? && arg.lock.value.ltype <= 3
      modifies this`errno
      ensures call == FcntlHostCall(cmd, arg, wordAddr)
      ensures Dispatch(cmd).Unknown? ==> outcome == Exit && errno == old(errno)
      // F_GETFL copies errno even on success
      ensures Dispatch(cmd) == GetFl ==>
        && errno == hostErrno
        && outcome == (if hostFlags.None? then Return(-1) else Return(GetflFlags(hostFlags.value) as int))
      ensures Dispatch(cmd) == SetFl || Dispatch(cmd) == SetLk ==>
        if hostOk then outcome == Return(0) && errno == old(errno)
        else outcome == Return(-1) && errno == hostErrno
    {
      call := FcntlHostCall(cmd, arg, wordAddr);
      match Dispatch(cmd)
      case GetFl =>
        errno := hostErrno;
        if hostFlags.None? {
          return Return(-1), call;
        }
        return Return(GetflFlags(hostFlags.value) as int), call;
      case SetFl =>
        if hostOk {
          return Return(0), call;
        }
        errno := hostErrno;
        return Return(-1), call;
      case SetLk =>
        if hostOk {
          return Return(0), call;
        }
        errno := hostErrno;
        return Return(-1), call;
      case Unknown(_) =>
        return Exit, call;
    }

    /** __unix_stat: on success the legacy errno is reset to 0 and the
        translated record is stored; on failure errno is copied. */
    method Stat(host: HostResult<HostStat>) returns (ret: int, statbuf: Option<UnixStat>)
      modifies this`errno
      ensures host.Err? ==> ret == -1 && statbuf == None && errno == host.errno
      ensures host.Ok? ==> ret == 0 && statbuf == Some(TranslateStat(host.value)) && errno == 0
    {
      if host.Err? {
        errno := host.errno;
        return -1, None;
      }
      errno := 0;
      return 0, Some(TranslateStat(host.value));
    }

    /** __unix_fstat: as Stat, except that success leaves errno alone. */
    method Fstat(host: HostResult<HostStat>) returns (ret: int, statbuf: Option<UnixStat>)
      modifies this`errno
      ensures host.Err? ==> ret == -1 && statbuf == None && errno == host.errno
      ensures host.Ok? ==> ret == 0 && statbuf == Some(TranslateStat(host.value)) && errno == old(errno)
    {
      if host.Err? {
        errno := host.errno;
        return -1, None;
      }
      return 0, Some(TranslateStat(host.value));
    }

    /** __unix_read. `hostRead` is what the host read delivered (None when
        it returned -1), `isTty` what isatty(fd) says. A one-byte read of
        the terminal gets the DEL fixup; every other read passes through
        and copies errno even on success. */
    method Read(fd: int, count: nat, isTty: bool, hostRead: Option<seq<byte>>, hostErrno: int)
      returns (ret: int, delivered: seq<byte>)
      requires hostRead.Some? ==> |hostRead.value| <= count
      modifies this`errno
      ensures var hostRet := if hostRead.Some? then |hostRead.value| else -1;
        if fd == STDIN_FILENO && count == 1 && isTty then
          if hostRet == 1 then
            ret == 1 && delivered == [KeyFixup(hostRead.value[0])] && errno == old(errno)
          else
            ret == hostRet && delivered == [] && errno == hostErrno
        else
          ret == hostRet && errno == hostErrno &&
          delivered == (if hostRead.Some? then hostRead.value else [])
    {
      if fd == STDIN_FILENO && count == 1 && isTty {
        if hostRead.None? || |hostRead.value| != 1 {
          errno := hostErrno;
          return if hostRead.Some? then |hostRead.value| else -1, [];
        }
        var key := hostRead.value[0];
        key := KeyFixup(key);
        return 1, [key];
      }
      errno := hostErrno;
      if hostRead.None? {
        return -1, [];
      }
      return |hostRead.value|, hostRead.value;
    }

    /** __unix_readdir. `host` is what readdir() produced: an entry, the
        end of the stream (Ok(None)), or an error with its errno. The host
        errno is reset to 0 before the call, so the end of the stream
        reaches the program as errno 0 and an error as its own errno. The
        static record is zeroed, then filled from the entry; otherwise it
        stays zeroed and NULL is returned (`found` false). */
    method Readdir(host: HostResult<Option<HostDirent>>) returns (found: bool)
      requires Valid()
      modifies this`errno, uent, uent.name
      ensures Valid() && State() == old(State())
      ensures found <==> host.Ok? && host.value.Some?
      ensures found ==> uent.Value() == TranslateDirent(host.value.value) && errno == old(errno)
      ensures !found ==> uent.Value() == ZeroDirent()
      ensures host == Ok(None) ==> errno == 0
      ensures host.Err? ==> errno == host.errno
    {
      var hostErrno := 0;
      uent.ino, uent.off, uent.reclen, uent.dtype := 0, 0, 0, 0;
      forall i | 0 <= i < uent.name.Length {
        uent.name[i] := 0;
      }
      if host.Err? || host.value.None? {
        if host.Err? {
          hostErrno := host.errno;
        }
        errno := hostErrno;
        assert uent.name[..] == Zeros(NAME_MAX);
        return false;
      }
      var lent := host.value.value;
      uent.ino := U16(lent.ino);
      uent.off := U32(lent.off);
      uent.reclen := U16(lent.reclen);
      uent.dtype := lent.dtype as u16;
      CopyName(uent.name, lent.name, NAME_MAX);
      assert uent.name[..] == uent.name[..NAME_MAX];
      return true;
    }
  }
}
