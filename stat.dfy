/** translate_linux_stat: the host's struct stat re-encoded into the
    legacy program's fixed 16/32-bit record, with the file-type nibble
    re-mapped through a table. */
module StatCodec {
  import opened Abi

  // Linux file-type field of st_mode.
  const S_IFMT: bv32 := 0xF000
  const S_IFREG: bv32 := 0x8000
  const S_IFDIR: bv32 := 0x4000
  const S_IFLNK: bv32 := 0xA000
  const S_IFBLK: bv32 := 0x6000
  const S_IFCHR: bv32 := 0x2000

  // Legacy file-type codes.
  const UNIX_S_IFMT: bv16 := 0xF000
  const UNIX_S_IFBLK: bv16 := 0x6000
  const UNIX_S_IFREG: bv16 := 0x8000
  const UNIX_S_IFLNK: bv16 := 0xA000
  const UNIX_S_IFDIR: bv16 := 0x4000
  const UNIX_S_IFCHR: bv16 := 0x2000

  /** The permission bits that pass through (setuid, setgid and sticky do not). */
  const PERM_BITS: bv16 := 0x1FF

  /** The host's struct stat, reduced to the fields the translator reads. */
  datatype HostStat = HostStat(
    dev: int, ino: int, mode: bv32, nlink: int, uid: int, gid: int, rdev: int,
    size: int, atime: int, mtime: int, ctime: int)

  /** The legacy struct unixstat. */
  datatype UnixStat = UnixStat(
    dev: u16, ino: u16, mode: bv16, nlink: u16, uid: u16, gid: u16, rdev: u16, pad: u16,
    size: u32, atime: u32, mtime: u32, ctime: u32)

  /** The kinds of file the translator distinguishes. */
  datatype FileType = Regular | Directory | Symlink | BlockDevice | CharDevice | Unsupported

  function HostFileType(mode: bv32): FileType {
    var t := mode & S_IFMT;
    if t == S_IFREG then Regular
    else if t == S_IFDIR then Directory
    else if t == S_IFLNK then Symlink
    else if t == S_IFBLK then BlockDevice
    else if t == S_IFCHR then CharDevice
    else Unsupported
  }

  /** How the legacy program reads the type nibble of a translated mode. */
  function LegacyFileType(mode: bv16): FileType {
    var t := mode & UNIX_S_IFMT;
    if t == UNIX_S_IFREG then Regular
    else if t == UNIX_S_IFDIR then Directory
    else if t == UNIX_S_IFLNK then Symlink
    else if t == UNIX_S_IFBLK then BlockDevice
    else if t == UNIX_S_IFCHR then CharDevice
    else Unsupported
  }

  /** The `switch (st_mode & S_IFMT)` table; an unsupported type only
      produces a warning and leaves the type bits zero. The code it gives
      lies in the type nibble and reads back as the host's file type. */
  function TypeCode(mode: bv32): (t: bv16)
    ensures t & !UNIX_S_IFMT == 0
    ensures LegacyFileType(t) == HostFileType(mode)
    ensures HostFileType(mode) == Unsupported ==> t == 0
  {
    var kind := mode & S_IFMT;
    if kind == S_IFREG then UNIX_S_IFREG
    else if kind == S_IFDIR then UNIX_S_IFDIR
    else if kind == S_IFLNK then UNIX_S_IFLNK
    else if kind == S_IFBLK then UNIX_S_IFBLK
    else if kind == S_IFCHR then UNIX_S_IFCHR
    else 0
  }

  /** Whether bit k of a mode word is set. */
  predicate HasBit(w: bv32, k: bv32)
    requires k < 32
  {
    (w >> k) & 1 == 1
  }

  /** The low nine permission bits of a host mode, as a legacy mode word:
      each of them is kept, and no other bit is set. */
  function Permissions(mode: bv32): (p: bv16)
    ensures p & !PERM_BITS == 0
    ensures forall k: bv32 | k < 9 :: HasBit(p as bv32, k) == HasBit(mode, k)
  {
    ((mode & 0x1FF) as bv16)
  }

  /** translate_linux_stat: zero-fill, narrow every field to its legacy
      width, rebuild the mode from the permission bits and the type table. */
  function TranslateStat(h: HostStat): (u: UnixStat)
    ensures u.pad == 0
    ensures u.dev == U16(h.dev) && u.ino == U16(h.ino) && u.nlink == U16(h.nlink)
    ensures u.uid == U16(h.uid) && u.gid == U16(h.gid) && u.rdev == U16(h.rdev)
    ensures u.size == U32(h.size)
    ensures u.atime == U32(h.atime) && u.mtime == U32(h.mtime) && u.ctime == U32(h.ctime)
  {
    var zero := UnixStat(0, 0, 0, 0, 0, 0, 0, 0, 0, 0, 0, 0);
    var filled := zero.(dev := U16(h.dev), ino := U16(h.ino), nlink := U16(h.nlink),
                        mode := Permissions(h.mode), uid := U16(h.uid), gid := U16(h.gid),
                        rdev := U16(h.rdev), size := U32(h.size),
                        atime := U32(h.atime), mtime := U32(h.mtime), ctime := U32(h.ctime));
    filled.(mode := filled.mode | TypeCode(h.mode))
  }

  /** A mode word built from permission bits and a type code: its type
      nibble is the code's and its permission bits are the permissions'. */
  lemma ModeParts(p: bv16, t: bv16)
    requires p & !PERM_BITS == 0
    requires t & !UNIX_S_IFMT == 0
    ensures (p | t) & UNIX_S_IFMT == t
    ensures (p | t) & PERM_BITS == p
    ensures (p | t) & !(UNIX_S_IFMT | PERM_BITS) == 0
  {
  }

  /** What a mode word built by the translator means to the legacy program. */
  lemma BuiltModeMeaning(hostMode: bv32, m: bv16)
    requires m == Permissions(hostMode) | TypeCode(hostMode)
    ensures LegacyFileType(m) == HostFileType(hostMode)
    ensures m & PERM_BITS == Permissions(hostMode)
    ensures m & !(UNIX_S_IFMT | PERM_BITS) == 0
    ensures HostFileType(hostMode) == Unsupported ==> m & UNIX_S_IFMT == 0
  {
    var p, t := Permissions(hostMode), TypeCode(hostMode);
    ModeParts(p, t);
    assert LegacyFileType(m) == LegacyFileType(t);
  }

  /** The translated mode is assembled from exactly the two parts. */
  lemma TranslatedModeParts(h: HostStat)
    ensures TranslateStat(h).mode == Permissions(h.mode) | TypeCode(h.mode)
  {
  }

  /** The translated mode keeps the host's file type (when it is one of the
      five supported kinds) and its nine permission bits, and nothing else. */
  lemma TranslatedModeMeaning(h: HostStat)
    ensures LegacyFileType(TranslateStat(h).mode) == HostFileType(h.mode)
    ensures TranslateStat(h).mode & PERM_BITS == Permissions(h.mode)
    ensures TranslateStat(h).mode & !(UNIX_S_IFMT | PERM_BITS) == 0
    ensures HostFileType(h.mode) == Unsupported ==> TranslateStat(h).mode & UNIX_S_IFMT == 0
  {
    TranslatedModeParts(h);
    BuiltModeMeaning(h.mode, TranslateStat(h).mode);
  }
}
