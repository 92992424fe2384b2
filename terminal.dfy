/** The terminal-mode engine of __unix_ioctl: the legacy program asks for
    raw or cooked keyboard mode only through two "magic" flag bits, which
    the engine itself sets in every TCGETS answer. A set request that still
    carries both bits asks for (or stays in) cooked mode; a request with
    either bit cleared asks for raw mode. Entering raw mode snapshots the
    host configuration so that leaving it can restore it. */
module Terminal {
  import opened Abi

  // Host (Linux) termios layout and bits.
  const NCCS: nat := 32
  const VTIME: nat := 5
  const VMIN: nat := 6
  const IGNBRK: bv32 := 0x1
  const BRKINT: bv32 := 0x2
  const ISIG: bv32 := 0x1

  // Legacy (System V i386) termios layout and the two magic bits.
  const UNIX_NCCS: nat := 19
  const UNIX_VMIN: nat := 4
  const UNIX_VTIME: nat := 5
  const UNIX_TABDLY: bv32 := 0x1800
  const UNIX_ICRNL: bv32 := 0x100

  type HostCc = s: seq<byte> | |s| == NCCS witness seq(32, i => 0)
  type LegacyCc = s: seq<byte> | |s| == UNIX_NCCS witness seq(19, i => 0)

  /** The host's struct termios: what tcgetattr reports and tcsetattr installs. */
  datatype HostTermios = HostTermios(
    iflag: bv32, oflag: bv32, cflag: bv32, lflag: bv32,
    line: byte, cc: HostCc, ispeed: bv32, ospeed: bv32)

  /** The legacy program's struct unixtermios, as a value. */
  datatype LegacyTermios = LegacyTermios(
    iflag: bv32, oflag: bv32, cflag: bv32, lflag: bv32, cc: LegacyCc)

  /** The all-zero host configuration, which the static pre-raw snapshot starts as. */
  function ZeroHostTermios(): HostTermios {
    HostTermios(0, 0, 0, 0, 0, seq(32, i => 0), 0, 0)
  }

  function ZeroLegacyTermios(): LegacyTermios {
    LegacyTermios(0, 0, 0, 0, seq(19, i => 0))
  }

  /** Every bit of `mask` is present in `word` (a multi-bit mask is tested whole). */
  predicate HasAll(word: bv32, mask: bv32) {
    word & mask == mask
  }

  /** termios_wants_rawmode. Despite its name it holds when the request
      still carries BOTH magic bits, and the caller then leaves raw mode.
      The output-flag test comes first; the input flags are consulted only
      when the whole TABDLY mask is present. */
  function WantsRawMode(tio: LegacyTermios): (r: bool)
    ensures r <==> HasAll(tio.oflag, UNIX_TABDLY) && HasAll(tio.iflag, UNIX_ICRNL)
    ensures !HasAll(tio.oflag, UNIX_TABDLY) ==> !r
  {
    if !HasAll(tio.oflag, UNIX_TABDLY) then false
    else if !HasAll(tio.iflag, UNIX_ICRNL) then false
    else true
  }

  /** termios_set_flags on a value: OR both magic bits in, touch nothing else. */
  function WithMagicFlags(tio: LegacyTermios): (r: LegacyTermios)
    ensures WantsRawMode(r)
    ensures r.cc == tio.cc && r.cflag == tio.cflag && r.lflag == tio.lflag
    ensures r.oflag & !UNIX_TABDLY == tio.oflag & !UNIX_TABDLY
    ensures r.iflag & !UNIX_ICRNL == tio.iflag & !UNIX_ICRNL
  {
    tio.(oflag := tio.oflag | UNIX_TABDLY, iflag := tio.iflag | UNIX_ICRNL)
  }

  /** The caller's struct unixtermios, which TCGETS zeroes and fills in place. */
  class UnixTermios {
    var iflag: bv32
    var oflag: bv32
    var cflag: bv32
    var lflag: bv32
    var cc: LegacyCc

    constructor (v: LegacyTermios)
      ensures Value() == v
    {
      iflag, oflag, cflag, lflag, cc := v.iflag, v.oflag, v.cflag, v.lflag, v.cc;
    }

    function Value(): LegacyTermios
      reads this
    {
      LegacyTermios(iflag, oflag, cflag, lflag, cc)
    }
  }

  /** termios_set_flags: ORs the magic bits into the caller's struct. */
  method SetFlags(tio: UnixTermios)
    modifies tio
    ensures tio.Value() == WithMagicFlags(old(tio.Value()))
  {
    tio.oflag := tio.oflag | UNIX_TABDLY;
    tio.iflag := tio.iflag | UNIX_ICRNL;
  }

  /** The host configuration with the read timeout and minimum count
      replaced (the two `tio.c_cc[...] = argp->c_cc[...]` assignments). */
  function SetTimeouts(c: HostTermios, vtime: byte, vmin: byte): (r: HostTermios)
    ensures r.cc[VTIME] == vtime && r.cc[VMIN] == vmin
    ensures forall i :: 0 <= i < NCCS && i != VTIME && i != VMIN ==> r.cc[i] == c.cc[i]
    ensures r.(cc := c.cc) == c
  {
    c.(cc := c.cc[VTIME := vtime][VMIN := vmin])
  }

  /** `a` is `b` except perhaps for the timeout and minimum-count slots. */
  predicate SameExceptTimeouts(a: HostTermios, b: HostTermios) {
    a == SetTimeouts(b, a.cc[VTIME], a.cc[VMIN])
  }

  /** A later timeout update overwrites an earlier one completely. */
  lemma SetTimeoutsOverwrite(c: HostTermios, t1: byte, m1: byte, t2: byte, m2: byte)
    ensures SetTimeouts(SetTimeouts(c, t1, m1), t2, m2) == SetTimeouts(c, t2, m2)
  {
    var a := SetTimeouts(SetTimeouts(c, t1, m1), t2, m2).cc;
    var b := SetTimeouts(c, t2, m2).cc;
    assert forall i | 0 <= i < NCCS :: a[i] == b[i];
    assert a == b;
  }

  /** Writing back a configuration's own timeouts changes nothing. */
  lemma SetTimeoutsOwn(c: HostTermios)
    ensures SetTimeouts(c, c.cc[VTIME], c.cc[VMIN]) == c
  {
    var a := SetTimeouts(c, c.cc[VTIME], c.cc[VMIN]).cc;
    assert forall i | 0 <= i < NCCS :: a[i] == c.cc[i];
    assert a == c.cc;
  }

  /** The raw configuration installed on entering raw mode: cfmakeraw
      (left uninterpreted as `makeRaw`), then break handling and signal
      keys switched back on so that Control-C still interrupts. */
  function RawConfig(makeRaw: HostTermios -> HostTermios, c: HostTermios): (r: HostTermios)
    ensures HasAll(r.iflag, BRKINT | IGNBRK) && HasAll(r.lflag, ISIG)
    ensures r.iflag & !(BRKINT | IGNBRK) == makeRaw(c).iflag & !(BRKINT | IGNBRK)
    ensures r.lflag & !ISIG == makeRaw(c).lflag & !ISIG
    ensures r.(iflag := makeRaw(c).iflag, lflag := makeRaw(c).lflag) == makeRaw(c)
  {
    var raw := makeRaw(c);
    raw.(iflag := raw.iflag | BRKINT | IGNBRK, lflag := raw.lflag | ISIG)
  }

  /** The engine's state: the static `rawmode` and `restore` of
      __unix_ioctl and the live host terminal configuration. */
  datatype EngineState = EngineState(rawmode: bool, restore: HostTermios, tty: HostTermios)

  /** The engine's invariant: while raw, the live terminal is the raw form
      of the snapshot, up to the timeout slots the program sets freely. */
  predicate RawInvariant(makeRaw: HostTermios -> HostTermios, s: EngineState) {
    s.rawmode ==> SameExceptTimeouts(s.tty, RawConfig(makeRaw, s.restore))
  }

  /** A TCSETS/TCSETSW request whose tcgetattr and tcsetattr both succeed. */
  function SetAttrs(makeRaw: HostTermios -> HostTermios, s: EngineState, req: LegacyTermios): (s': EngineState)
    ensures s'.rawmode == !WantsRawMode(req)
    ensures s'.tty.cc[VTIME] == req.cc[UNIX_VTIME] && s'.tty.cc[VMIN] == req.cc[UNIX_VMIN]
    // the snapshot is taken only on the cooked-to-raw transition
    ensures s'.restore == if !s.rawmode && s'.rawmode then s.tty else s.restore
    // cooked -> raw: raw form of the current configuration
    ensures !s.rawmode && s'.rawmode ==> SameExceptTimeouts(s'.tty, RawConfig(makeRaw, s.tty))
    // raw -> cooked: the snapshot comes back
    ensures s.rawmode && !s'.rawmode ==> SameExceptTimeouts(s'.tty, s.restore)
    // no transition: only the two timeout slots move
    ensures s.rawmode == s'.rawmode ==> SameExceptTimeouts(s'.tty, s.tty)
  {
    var vtime, vmin := req.cc[UNIX_VTIME], req.cc[UNIX_VMIN];
    if WantsRawMode(req) then
      var base := if s.rawmode then s.restore else s.tty;
      EngineState(false, s.restore, SetTimeouts(base, vtime, vmin))
    else
      var restore := if s.rawmode then s.restore else s.tty;
      var base := if s.rawmode then s.tty else RawConfig(makeRaw, s.tty);
      EngineState(true, restore, SetTimeouts(base, vtime, vmin))
  }

  /** The answer to TCGETS: a zeroed struct with only the timeout and
      minimum count copied from the host, then the magic bits ORed in. */
  function GetAttrs(tty: HostTermios): (t: LegacyTermios)
    ensures WantsRawMode(t)
    ensures t.cc[UNIX_VTIME] == tty.cc[VTIME] && t.cc[UNIX_VMIN] == tty.cc[VMIN]
    ensures forall i :: 0 <= i < UNIX_NCCS && i != UNIX_VTIME && i != UNIX_VMIN ==> t.cc[i] == 0
    ensures t.oflag == UNIX_TABDLY && t.iflag == UNIX_ICRNL && t.cflag == 0 && t.lflag == 0
  {
    var zero := ZeroLegacyTermios();
    WithMagicFlags(zero.(cc := zero.cc[UNIX_VTIME := tty.cc[VTIME]][UNIX_VMIN := tty.cc[VMIN]]))
  }

  /** The raw-mode invariant survives every successful set request. */
  lemma SetAttrsKeepsInvariant(makeRaw: HostTermios -> HostTermios, s: EngineState, req: LegacyTermios)
    requires RawInvariant(makeRaw, s)
    ensures RawInvariant(makeRaw, SetAttrs(makeRaw, s, req))
  {
    var s' := SetAttrs(makeRaw, s, req);
    if s'.rawmode && s.rawmode {
      // s'.tty ~ s.tty ~ RawConfig(restore); overwrite lemmas make ~ transitive
      var raw := RawConfig(makeRaw, s.restore);
      SetTimeoutsOverwrite(raw, s.tty.cc[VTIME], s.tty.cc[VMIN], s'.tty.cc[VTIME], s'.tty.cc[VMIN]);
    }
  }

  /** While raw (and the invariant holds), Control-C and break still
      raise signals on the live terminal. */
  lemma RawModeKeepsSignals(makeRaw: HostTermios -> HostTermios, s: EngineState)
    requires RawInvariant(makeRaw, s) && s.rawmode
    ensures HasAll(s.tty.lflag, ISIG) && HasAll(s.tty.iflag, BRKINT | IGNBRK)
  {
    var raw := RawConfig(makeRaw, s.restore);
    assert s.tty.lflag == SetTimeouts(raw, s.tty.cc[VTIME], s.tty.cc[VMIN]).lflag;
  }

  /** Cooked -> raw -> cooked: the host terminal ends as it was before the
      raw request, except for the two timeout slots, and the snapshot is
      the pre-raw configuration. */
  lemma RawRoundTrip(makeRaw: HostTermios -> HostTermios, s: EngineState, toRaw: LegacyTermios, toCooked: LegacyTermios)
    requires !s.rawmode && !WantsRawMode(toRaw) && WantsRawMode(toCooked)
    ensures var s2 := SetAttrs(makeRaw, SetAttrs(makeRaw, s, toRaw), toCooked);
      && !s2.rawmode
      && s2.restore == s.tty
      && s2.tty == SetTimeouts(s.tty, toCooked.cc[UNIX_VTIME], toCooked.cc[UNIX_VMIN])
  {
    var s1 := SetAttrs(makeRaw, s, toRaw);
    var s2 := SetAttrs(makeRaw, s1, toCooked);
    SetTimeoutsOverwrite(s.tty, s2.tty.cc[VTIME], s2.tty.cc[VMIN], toCooked.cc[UNIX_VTIME], toCooked.cc[UNIX_VMIN]);
  }

  /** Repeating a set request changes nothing more: in particular a second
      raw request does not take a second snapshot over the first. */
  lemma SetAttrsIdempotent(makeRaw: HostTermios -> HostTermios, s: EngineState, req: LegacyTermios)
    ensures SetAttrs(makeRaw, SetAttrs(makeRaw, s, req), req) == SetAttrs(makeRaw, s, req)
  {
    var s1 := SetAttrs(makeRaw, s, req);
    var s2 := SetAttrs(makeRaw, s1, req);
    SetTimeoutsOverwrite(s1.tty, s1.tty.cc[VTIME], s1.tty.cc[VMIN], req.cc[UNIX_VTIME], req.cc[UNIX_VMIN]);
    SetTimeoutsOwn(s1.tty);
    assert s2.tty == s1.tty;
  }

  /** Echoing a TCGETS answer back unchanged asks for cooked mode; if the
      engine was cooked, the host terminal is left exactly as it was. */
  lemma EchoedQueryIsCooked(makeRaw: HostTermios -> HostTermios, s: EngineState)
    ensures !SetAttrs(makeRaw, s, GetAttrs(s.tty)).rawmode
    ensures !s.rawmode ==> SetAttrs(makeRaw, s, GetAttrs(s.tty)) == s
  {
    SetTimeoutsOwn(s.tty);
  }

  /** Clearing any one bit of either magic mask in a TCGETS answer is
      read as a raw-mode request. */
  lemma ClearedMagicBitRequestsRaw(makeRaw: HostTermios -> HostTermios, s: EngineState, bit: bv32)
    requires bit & (UNIX_TABDLY | UNIX_ICRNL) != 0
    ensures var q := GetAttrs(s.tty);
      SetAttrs(makeRaw, s, q.(oflag := q.oflag & !bit, iflag := q.iflag & !bit)).rawmode
  {
  }

  /** The timeouts a set request installs are the ones the next query reports. */
  lemma TimeoutsRoundTrip(makeRaw: HostTermios -> HostTermios, s: EngineState, req: LegacyTermios)
    ensures var q := GetAttrs(SetAttrs(makeRaw, s, req).tty);
      q.cc[UNIX_VTIME] == req.cc[UNIX_VTIME] && q.cc[UNIX_VMIN] == req.cc[UNIX_VMIN]
  {
  }
}
