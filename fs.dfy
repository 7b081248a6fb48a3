/**
 * The RAM file store (kernel/fs.c): a table of 50 inodes with their data
 * held in place, a root directory whose data is a list of directory
 * entries, the next inode number, and a table of 16 open-file slots.
 *
 * Syscall arguments are parameters: a path is the C string `argstr` fills
 * in, `n` the `int` count, and `bytes` the `n` bytes at the user buffer.
 * Read returns the bytes it copies out instead of writing user memory.
 */
module Fs {
  import opened RiscV
  import opened Wrappers
  import opened CString

  const NINODE: nat := 50
  const ROOT_INUM: int := 1
  const MAX_OPEN_FILES: nat := 16
  const MAX_FILE_SIZE: nat := 65536
  const MAX_FILENAME: nat := 28
  const FT_REG: int := 1
  const FT_DIR: int := 2

  /** sizeof(struct dirent): a two-byte inode number and a 28-byte name. */
  const DIRENT_SIZE: nat := 30

  /** A directory entry's inode number is an `unsigned short`. */
  const TWO_16: nat := 65536

  const ZERO_DATA: seq<char> := seq(MAX_FILE_SIZE, _ => '\0')

  /** An inode's `data` array. */
  type FileData = d: seq<char> | |d| == MAX_FILE_SIZE witness ZERO_DATA

  datatype Inode = Inode(inum: int, itype: int, nlink: int, size: nat, data: FileData)

  const ZERO_INODE: Inode := Inode(0, 0, 0, 0, ZERO_DATA)

  type InodeTable = t: seq<Inode> | |t| == NINODE witness seq(NINODE, _ => ZERO_INODE)

  /** The characters of a C string before its terminator. */
  type Name = s: seq<char> | '\0' !in s

  /** A directory entry: the inode number as stored, and the name up to its NUL. */
  datatype Dirent = Dirent(inum: nat, name: Name)

  /** The root inode; its data is the sequence of entries dirlink appended. */
  datatype RootInode = RootInode(inum: int, itype: int, nlink: int, entries: seq<Dirent>)

  /** `root_inode.size`: every entry dirlink appended takes DIRENT_SIZE bytes. */
  function RootSize(r: RootInode): nat {
    DIRENT_SIZE * |r.entries|
  }

  /** A `struct inode *`: null, `&root_inode`, or `&inodes[i]` for any `i`, in range or not. */
  datatype InodeRef = Null | Root | Slot(i: int)

  datatype FdType = FdNone | FdInode

  /** A `struct file`; `off` is an `unsigned int`. */
  datatype File = File(ftype: FdType, ref: int, ip: InodeRef, off: nat)

  const NO_FILE: File := File(FdNone, 0, Null, 0)

  type FileTable = t: seq<File> | |t| == MAX_OPEN_FILES witness seq(MAX_OPEN_FILES, _ => NO_FILE)

  /** The globals of fs.c as one value. */
  datatype Fs = Fs(inodes: InodeTable, root: RootInode, nextInum: int, ftable: FileTable)

  /** The zero-initialised globals, with `next_inum = 2`. */
  const ZERO_FS: Fs := Fs(seq(NINODE, _ => ZERO_INODE), RootInode(0, 0, 0, []), 2, seq(MAX_OPEN_FILES, _ => NO_FILE))

  /** The outcome of a call that returns an `int` and changes the globals. */
  datatype Outcome = Outcome(ret: int, fs: Fs)

  /** fs_init: the root becomes an empty directory and every descriptor FD_NONE. */
  function Init(s: Fs): Fs {
    s.(root := RootInode(ROOT_INUM, FT_DIR, 1, []),
       ftable := seq(MAX_OPEN_FILES, k requires 0 <= k < MAX_OPEN_FILES => s.ftable[k].(ftype := FdNone)))
  }

  // ---------------------------------------------------------------------
  // ialloc

  /** The lowest index at or after `k` whose inode is free (inum 0). */
  function FirstFree(inodes: InodeTable, k: nat): (r: Option<nat>)
    requires k <= NINODE
    ensures r.Some? ==> k <= r.value < NINODE && inodes[r.value].inum == 0
    ensures r.Some? ==> forall j :: k <= j < r.value ==> inodes[j].inum != 0
    ensures r.None? ==> forall j :: k <= j < NINODE ==> inodes[j].inum != 0
    decreases NINODE - k
  {
    if k == NINODE then None
    else if inodes[k].inum == 0 then Some(k)
    else FirstFree(inodes, k + 1)
  }

  datatype Alloc = Alloc(slot: Option<nat>, fs: Fs)

  /**
   * ialloc claims the lowest free inode: it gets `next_inum` (which then
   * advances), the type, one link and size 0, and keeps its data. With all
   * 50 in use it returns null and changes nothing.
   */
  function Allocate(s: Fs, itype: int): (r: Alloc)
    ensures r.slot.None? <==> forall j :: 0 <= j < NINODE ==> s.inodes[j].inum != 0
    ensures r.slot.None? ==> r.fs == s
    ensures r.slot.Some? ==>
      var i := r.slot.value;
      && i < NINODE && s.inodes[i].inum == 0
      && (forall j :: 0 <= j < i ==> s.inodes[j].inum != 0)
      && r.fs.inodes[i] == Inode(s.nextInum, itype, 1, 0, s.inodes[i].data)
      && (forall j :: 0 <= j < NINODE && j != i ==> r.fs.inodes[j] == s.inodes[j])
      && r.fs.nextInum == s.nextInum + 1
      && r.fs.root == s.root && r.fs.ftable == s.ftable
  {
    match FirstFree(s.inodes, 0)
    case None => Alloc(None, s)
    case Some(i) =>
      var ip := s.inodes[i].(inum := s.nextInum, itype := itype, nlink := 1, size := 0);
      Alloc(Some(i), s.(inodes := s.inodes[i := ip], nextInum := s.nextInum + 1))
  }

  // ---------------------------------------------------------------------
  // namei

  /** The first entry at or after `k` that is in use (inum not 0) and has this name. */
  function FindLive(entries: seq<Dirent>, name: seq<char>, k: nat): (r: Option<nat>)
    requires k <= |entries|
    ensures r.Some? ==> k <= r.value < |entries| && entries[r.value].inum != 0 && entries[r.value].name == name
    ensures r.Some? ==> forall j :: k <= j < r.value ==> entries[j].inum == 0 || entries[j].name != name
    ensures r.None? ==> forall j :: k <= j < |entries| ==> entries[j].inum == 0 || entries[j].name != name
    decreases |entries| - k
  {
    if k == |entries| then None
    else if entries[k].inum != 0 && entries[k].name == name then Some(k)
    else FindLive(entries, name, k + 1)
  }

  /** A C string that does not start with its terminator goes on after its first character. */
  lemma TailTerminated(path: seq<char>)
    requires '\0' in path && path[0] != '\0'
    ensures |path| >= 2 && '\0' in path[1..]
  {
    var k :| 0 <= k < |path| && path[k] == '\0';
    assert path[1..][k - 1] == '\0';
  }

  /** strcmp of an entry's name (NUL-terminated in the entry) with a C string is 0 exactly when the names agree. */
  lemma NameMatches(de: Dirent, name: seq<char>)
    requires '\0' in name
    ensures StrCmp(de.name + ['\0'], name) == 0 <==> de.name == Contents(name)
  {
    StrCmpZeroIff(de.name + ['\0'], name);
    ContentsOfTerminated(de.name, []);
    assert de.name + ['\0'] + [] == de.name + ['\0'];
  }

  /** What namei returns: an entry's inode is taken from slot `inum - 2`. */
  function Resolve(root: RootInode, path: seq<char>): InodeRef
    requires '\0' in path
  {
    if path[0] != '/' then Null
    else
      TailTerminated(path);
      if path[1] == '\0' then Root
      else if '/' in Contents(path[1..]) then Null
      else match FindLive(root.entries, Contents(path[1..]), 0)
        case None => Null
        case Some(k) => Slot(root.entries[k].inum - 2)
  }

  /**
   * namei gives null unless the path starts with '/', the root for "/", null
   * for a name holding another '/', and otherwise the slot named by the
   * first live entry with that name, or null when there is none.
   */
  lemma ResolveCases(root: RootInode, path: seq<char>)
    requires '\0' in path
    ensures path[0] != '/' ==> Resolve(root, path) == Null
    ensures path[0] == '/' ==> '\0' in path[1..]
    ensures path[0] == '/' ==> (Resolve(root, path) == Root <==> Contents(path[1..]) == [])
    ensures path[0] == '/' && '/' in Contents(path[1..]) ==> Resolve(root, path) == Null
    ensures path[0] == '/' && Contents(path[1..]) != [] && '/' !in Contents(path[1..]) ==>
      (Resolve(root, path).Slot? <==> exists k :: 0 <= k < |root.entries| && root.entries[k].inum != 0 && root.entries[k].name == Contents(path[1..]))
  {
    if path[0] == '/' {
      TailTerminated(path);
      var name := path[1..];
      assert Contents(name) == [] <==> name[0] == '\0';
      var c := Contents(name);
      if c != [] && '/' !in c {
        var r := FindLive(root.entries, c, 0);
        if r.Some? {
          assert root.entries[r.value].inum != 0 && root.entries[r.value].name == c;
        }
      }
    }
  }

  // ---------------------------------------------------------------------
  // dirlink

  /** A name strcpy can copy into a directory entry without overrunning it. */
  predicate NameFits(name: seq<char>) {
    '\0' in name && StrLen(name) < MAX_FILENAME
  }

  /** dirlink's checks: the target is a directory with room for one more entry. */
  predicate CanLink(root: RootInode) {
    root.itype == FT_DIR && RootSize(root) + DIRENT_SIZE <= MAX_FILE_SIZE
  }

  datatype Linked = Linked(ret: int, root: RootInode)

  /**
   * dirlink on the root: -1 and no change when it is not a directory or the
   * entry would pass 64 KiB; otherwise one entry, holding the name and the
   * inode number cut to 16 bits, is appended and the size grows by one entry.
   */
  function Link(root: RootInode, name: seq<char>, inum: int): (r: Linked)
    requires CanLink(root) ==> NameFits(name)
    ensures !CanLink(root) ==> r.ret == -1 && r.root == root
    ensures CanLink(root) ==>
      && r.ret == 0
      && r.root == root.(entries := root.entries + [Dirent(inum % TWO_16, Contents(name))])
      && RootSize(r.root) == RootSize(root) + DIRENT_SIZE <= MAX_FILE_SIZE
  {
    if root.itype != FT_DIR then Linked(-1, root)
    else if RootSize(root) + DIRENT_SIZE > MAX_FILE_SIZE then Linked(-1, root)
    else Linked(0, root.(entries := root.entries + [Dirent(inum % TWO_16, Contents(name))]))
  }

  // ---------------------------------------------------------------------
  // sys_open

  /** The lowest descriptor at or after `k` that is FD_NONE. */
  function FirstFreeFd(ftable: FileTable, k: nat): (r: Option<nat>)
    requires k <= MAX_OPEN_FILES
    ensures r.Some? ==> k <= r.value < MAX_OPEN_FILES && ftable[r.value].ftype == FdNone
    ensures r.Some? ==> forall j :: k <= j < r.value ==> ftable[j].ftype != FdNone
    ensures r.None? ==> forall j :: k <= j < MAX_OPEN_FILES ==> ftable[j].ftype != FdNone
    decreases MAX_OPEN_FILES - k
  {
    if k == MAX_OPEN_FILES then None
    else if ftable[k].ftype == FdNone then Some(k)
    else FirstFreeFd(ftable, k + 1)
  }

  /** sys_open's descriptor loop: the lowest free one gets the path's inode, offset 0 and one reference. */
  function Grant(s: Fs, path: seq<char>): Outcome
    requires '\0' in path
  {
    match FirstFreeFd(s.ftable, 0)
    case None => Outcome(-1, s)
    case Some(fd) => Outcome(fd, s.(ftable := s.ftable[fd := File(FdInode, 1, Resolve(s.root, path), 0)]))
  }

  /** Whether sys_open with O_CREATE gets as far as dirlink's strcpy. */
  predicate ReachesLink(s: Fs, path: seq<char>, flags: i32)
    requires '\0' in path
  {
    flags % 2 == 1 && Resolve(s.root, path) == Null && FirstFree(s.inodes, 0).Some? && CanLink(s.root)
  }

  /** strcpy into the entry's 28-byte name is defined only for a name that fits. */
  predicate OpenDefined(s: Fs, path: seq<char>, flags: i32)
    requires '\0' in path
  {
    ReachesLink(s, path, flags) ==> NameFits(path[1..])
  }

  /** The state after O_CREATE's ialloc, dirlink and `ip->nlink = 1`. */
  function Create(s: Fs, path: seq<char>, i: nat): Fs
    requires '\0' in path && i < NINODE
    requires CanLink(s.root) ==> NameFits(path[1..])
  {
    var l := Link(s.root, path[1..], s.inodes[i].inum);
    s.(root := l.root, inodes := s.inodes[i := s.inodes[i].(nlink := 1)])
  }

  /**
   * sys_open. Bit 0 of the flags (O_CREATE) fails when the path already
   * resolves and otherwise allocates an inode and links it into the root;
   * without it, the path must resolve. Then the lowest free descriptor is
   * filled in with namei's answer for the path, and its index returned.
   */
  function OpenFile(s: Fs, path: seq<char>, flags: i32): (r: Outcome)
    requires '\0' in path && OpenDefined(s, path, flags)
    ensures flags % 2 == 1 && Resolve(s.root, path) != Null ==> r == Outcome(-1, s)
    ensures flags % 2 == 0 && Resolve(s.root, path) == Null ==> r == Outcome(-1, s)
    ensures r.ret >= 0 ==>
      && r.ret < MAX_OPEN_FILES && s.ftable[r.ret].ftype == FdNone
      && (forall j :: 0 <= j < r.ret ==> s.ftable[j].ftype != FdNone)
      && r.fs.ftable[r.ret] == File(FdInode, 1, Resolve(r.fs.root, path), 0)
      && (forall j :: 0 <= j < MAX_OPEN_FILES && j != r.ret ==> r.fs.ftable[j] == s.ftable[j])
  {
    if flags % 2 == 1 then
      if Resolve(s.root, path) != Null then Outcome(-1, s)
      else
        var a := Allocate(s, FT_REG);
        if a.slot.None? then Outcome(-1, s)
        else Grant(Create(a.fs, path, a.slot.value), path)
    else if Resolve(s.root, path) == Null then Outcome(-1, s)
    else Grant(s, path)
  }

  // ---------------------------------------------------------------------
  // sys_close

  /** A descriptor in range that is not FD_NONE. */
  predicate FdOpen(s: Fs, fd: int) {
    0 <= fd < MAX_OPEN_FILES && s.ftable[fd].ftype != FdNone
  }

  /**
   * sys_close: -1 and no change for a descriptor out of range or already
   * FD_NONE; otherwise that descriptor alone becomes FD_NONE with no
   * references.
   */
  function CloseFile(s: Fs, fd: int): (r: Outcome)
    ensures r.ret == -1 <==> !FdOpen(s, fd)
    ensures r.ret == -1 ==> r.fs == s
    ensures r.ret != -1 ==>
      && r.ret == 0 && 0 <= fd < MAX_OPEN_FILES
      && r.fs == s.(ftable := s.ftable[fd := s.ftable[fd].(ftype := FdNone, ref := 0)])
  {
    if !FdOpen(s, fd) then Outcome(-1, s)
    else Outcome(0, s.(ftable := s.ftable[fd := s.ftable[fd].(ftype := FdNone, ref := 0)]))
  }

  // ---------------------------------------------------------------------
  // sys_read

  /** `f->off + n > ip->size`, in `unsigned int` arithmetic. */
  predicate PastEnd(off: nat, size: nat, n: i32) {
    (off + n) % TWO_32 > size
  }

  /** The count read copies: `n`, or `ip->size - f->off` (unsigned, then back to `int`) past the end. */
  function ReadCount(off: nat, size: nat, n: i32): int {
    if PastEnd(off, size, n) then ToI32((size - off) % TWO_32) else n
  }

  /** The descriptor holds an inode of the table. */
  predicate HoldsInode(s: Fs, fd: int)
    requires 0 <= fd < MAX_OPEN_FILES
  {
    s.ftable[fd].ip.Slot? && 0 <= s.ftable[fd].ip.i < NINODE
  }

  /**
   * sys_read is defined when the descriptor's inode is one of the table's
   * and memcpy gets a count from 0 up to the end of the data array.
   */
  predicate ReadDefined(s: Fs, fd: int, n: i32) {
    FdOpen(s, fd) ==>
      && HoldsInode(s, fd)
      && var f := s.ftable[fd];
         var c := ReadCount(f.off, s.inodes[f.ip.i].size, n);
         (PastEnd(f.off, s.inodes[f.ip.i].size, n) && c <= 0) || (0 <= c && f.off + c <= MAX_FILE_SIZE)
  }

  datatype ReadOutcome = ReadOutcome(ret: int, bytes: seq<char>, fs: Fs)

  /** sys_read, returning the bytes memcpy copies out. */
  function ReadFile(s: Fs, fd: int, n: i32): (r: ReadOutcome)
    requires ReadDefined(s, fd, n)
    ensures |r.bytes| == if r.ret > 0 then r.ret else 0
  {
    if !FdOpen(s, fd) then ReadOutcome(-1, [], s)
    else
      var f := s.ftable[fd];
      var ip := s.inodes[f.ip.i];
      var c := ReadCount(f.off, ip.size, n);
      if PastEnd(f.off, ip.size, n) && c <= 0 then ReadOutcome(0, [], s)
      else ReadOutcome(c, ip.data[f.off..f.off + c], s.(ftable := s.ftable[fd := f.(off := f.off + c)]))
  }

  /** The offset of every descriptor, and the size of every inode, stay within 64 KiB. */
  predicate Bounded(s: Fs) {
    && (forall j :: 0 <= j < NINODE ==> s.inodes[j].size <= MAX_FILE_SIZE)
    && (forall k :: 0 <= k < MAX_OPEN_FILES ==> s.ftable[k].off <= MAX_FILE_SIZE)
  }

  /**
   * With offsets and sizes in bounds and a non-negative count, a read of an
   * open descriptor whose offset is within the file returns min(n, size -
   * off), copies those bytes from the offset, and advances the offset by
   * that much; nothing else changes.
   */
  lemma ReadReturnsAvailable(s: Fs, fd: int, n: i32)
    requires Bounded(s) && 0 <= n && FdOpen(s, fd) && HoldsInode(s, fd)
    requires s.ftable[fd].off <= s.inodes[s.ftable[fd].ip.i].size
    ensures ReadDefined(s, fd, n)
    ensures
      var f := s.ftable[fd];
      var ip := s.inodes[f.ip.i];
      var m := if n <= ip.size - f.off then n as int else ip.size - f.off;
      var r := ReadFile(s, fd, n);
      && r.ret == m
      && r.bytes == ip.data[f.off..f.off + m]
      && r.fs == s.(ftable := s.ftable[fd := f.(off := f.off + m)])
  {
    var f := s.ftable[fd];
    var ip := s.inodes[f.ip.i];
    assert (f.off + n) % TWO_32 == f.off + n;
    if PastEnd(f.off, ip.size, n) {
      assert (ip.size - f.off) % TWO_32 == ip.size - f.off;
      assert ReadCount(f.off, ip.size, n) == ip.size - f.off;
    }
  }

  /**
   * A read of a descriptor whose offset lies past the end of its file (its
   * inode slot reused by a smaller file after an unlink) takes the
   * `n <= 0` exit: it returns 0, copies nothing and changes nothing.
   */
  lemma ReadPastEnd(s: Fs, fd: int, n: i32)
    requires Bounded(s) && 0 <= n && FdOpen(s, fd) && HoldsInode(s, fd)
    requires s.ftable[fd].off > s.inodes[s.ftable[fd].ip.i].size
    ensures ReadDefined(s, fd, n)
    ensures ReadFile(s, fd, n) == ReadOutcome(0, [], s)
  {
    var f := s.ftable[fd];
    var ip := s.inodes[f.ip.i];
    assert (f.off + n) % TWO_32 == f.off + n;
    assert (ip.size - f.off) % TWO_32 == TWO_32 + (ip.size - f.off);
    assert ReadCount(f.off, ip.size, n) == ip.size - f.off;
  }

  // ---------------------------------------------------------------------
  // sys_write

  /** `f->off + n > MAX_FILE_SIZE`, in `unsigned int` arithmetic. */
  predicate TooLong(off: nat, n: i32) {
    (off + n) % TWO_32 > MAX_FILE_SIZE
  }

  /**
   * sys_write is defined when, past its check, the descriptor's inode is
   * one of the table's, the count is not negative and the write ends within
   * the data array; `bytes` are the `n` bytes at the user buffer.
   */
  predicate WriteDefined(s: Fs, fd: int, n: i32, bytes: seq<char>) {
    FdOpen(s, fd) && !TooLong(s.ftable[fd].off, n) ==>
      HoldsInode(s, fd) && 0 <= n && s.ftable[fd].off + n <= MAX_FILE_SIZE && |bytes| == n
  }

  /**
   * sys_write: -1 and no change for a closed descriptor or a write past
   * 64 KiB; otherwise the bytes replace the data at the offset, the size
   * becomes max(size, off + n), the offset advances by n and n is returned.
   */
  function WriteFile(s: Fs, fd: int, n: i32, bytes: seq<char>): (r: Outcome)
    requires WriteDefined(s, fd, n, bytes)
    ensures !FdOpen(s, fd) || TooLong(s.ftable[fd].off, n) ==> r == Outcome(-1, s)
    ensures FdOpen(s, fd) && !TooLong(s.ftable[fd].off, n) ==>
      var f := s.ftable[fd];
      var i := f.ip.i;
      var ip := r.fs.inodes[i];
      && r.ret == n
      && ip.data[f.off..f.off + n] == bytes
      && ip.data[..f.off] == s.inodes[i].data[..f.off]
      && ip.data[f.off + n..] == s.inodes[i].data[f.off + n..]
      && ip.size == (if f.off + n > s.inodes[i].size then f.off + n else s.inodes[i].size)
      && ip.inum == s.inodes[i].inum && ip.itype == s.inodes[i].itype && ip.nlink == s.inodes[i].nlink
      && (forall j :: 0 <= j < NINODE && j != i ==> r.fs.inodes[j] == s.inodes[j])
      && r.fs.ftable == s.ftable[fd := f.(off := f.off + n)]
      && r.fs.root == s.root && r.fs.nextInum == s.nextInum
  {
    if !FdOpen(s, fd) then Outcome(-1, s)
    else
      var f := s.ftable[fd];
      if TooLong(f.off, n) then Outcome(-1, s)
      else
        var ip := s.inodes[f.ip.i];
        var data := ip.data[..f.off] + bytes + ip.data[f.off + n..];
        var size := if f.off + n > ip.size then f.off + n else ip.size;
        Outcome(n, s.(inodes := s.inodes[f.ip.i := ip.(data := data, size := size)],
                      ftable := s.ftable[fd := f.(off := f.off + n)]))
  }

  // ---------------------------------------------------------------------
  // sys_unlink

  /** The first entry at or after `k` holding this inode number and this name. */
  function FindLink(entries: seq<Dirent>, inum: int, name: seq<char>, k: nat): (r: Option<nat>)
    requires k <= |entries|
    ensures r.Some? ==> k <= r.value < |entries| && entries[r.value].inum == inum && entries[r.value].name == name
    ensures r.Some? ==> forall j :: k <= j < r.value ==> entries[j].inum != inum || entries[j].name != name
    ensures r.None? ==> forall j :: k <= j < |entries| ==> entries[j].inum != inum || entries[j].name != name
    decreases |entries| - k
  {
    if k == |entries| then None
    else if entries[k].inum == inum && entries[k].name == name then Some(k)
    else FindLink(entries, inum, name, k + 1)
  }

  /** The `inum` field namei's answer points at. */
  function InumOf(s: Fs, ip: InodeRef): int
    requires ip.Slot? ==> 0 <= ip.i < NINODE
  {
    match ip
    case Null => 0
    case Root => s.root.inum
    case Slot(i) => s.inodes[i].inum
  }

  /** `ip->inum = 0` through namei's answer. */
  function ClearInum(s: Fs, ip: InodeRef): Fs
    requires ip.Slot? ==> 0 <= ip.i < NINODE
  {
    match ip
    case Null => s
    case Root => s.(root := s.root.(inum := 0))
    case Slot(i) => s.(inodes := s.inodes[i := s.inodes[i].(inum := 0)])
  }

  /** sys_unlink reads `ip->inum`, so namei's answer must be null, the root or one of the table's inodes. */
  predicate UnlinkDefined(s: Fs, path: seq<char>)
    requires '\0' in path
  {
    var ip := Resolve(s.root, path);
    ip.Slot? ==> 0 <= ip.i < NINODE
  }

  /**
   * sys_unlink: -1 when the path does not resolve or no entry holds both
   * its name and the resolved inode's number; otherwise the first such
   * entry and that inode both get inum 0, and 0 is returned.
   */
  function UnlinkFile(s: Fs, path: seq<char>): (r: Outcome)
    requires '\0' in path && UnlinkDefined(s, path)
  {
    var ip := Resolve(s.root, path);
    if ip == Null then Outcome(-1, s)
    else
      TailTerminated(path);
      match FindLink(s.root.entries, InumOf(s, ip), Contents(path[1..]), 0)
      case None => Outcome(-1, s)
      case Some(k) =>
        var s1 := s.(root := s.root.(entries := s.root.entries[k := s.root.entries[k].(inum := 0)]));
        Outcome(0, ClearInum(s1, ip))
  }

  // ---------------------------------------------------------------------
  // Properties across calls

  /**
   * The inodes of a file store in which nothing was unlinked: slots
   * 0 .. next_inum - 3 hold inode numbers 2 .. next_inum - 1 in order, the
   * rest are free, and every live entry names an allocated inode.
   */
  ghost predicate Packed(s: Fs) {
    && 2 <= s.nextInum <= NINODE + 2
    && (forall j :: 0 <= j < NINODE ==> s.inodes[j].inum == if j < s.nextInum - 2 then j + 2 else 0)
    && (forall k :: 0 <= k < |s.root.entries| && s.root.entries[k].inum != 0 ==>
          2 <= s.root.entries[k].inum < s.nextInum)
  }

  /** In a packed store namei's `inum - 2` is the slot that holds that inode number. */
  lemma PackedResolveIsLive(s: Fs, path: seq<char>)
    requires Packed(s) && '\0' in path
    ensures var ip := Resolve(s.root, path);
      ip.Slot? ==> 0 <= ip.i < s.nextInum - 2 && s.inodes[ip.i].inum == ip.i + 2
  {
  }

  /** In a packed store ialloc takes slot `next_inum - 2`, and the slots stay numbered in order. */
  lemma PackedAllocate(s: Fs) returns (i: nat)
    requires Packed(s) && s.nextInum < NINODE + 2
    ensures i == s.nextInum - 2 && Allocate(s, FT_REG).slot == Some(i)
    ensures var a := Allocate(s, FT_REG).fs;
      forall j :: 0 <= j < NINODE ==> a.inodes[j].inum == if j < a.nextInum - 2 then j + 2 else 0
  {
    i := s.nextInum - 2;
    assert s.inodes[i].inum == 0;
    assert FirstFree(s.inodes, 0) == Some(i) by {
      assert forall j :: 0 <= j < i ==> s.inodes[j].inum == j + 2;
    }
    var a := Allocate(s, FT_REG).fs;
    forall j | 0 <= j < NINODE
      ensures a.inodes[j].inum == if j < a.nextInum - 2 then j + 2 else 0
    {
      if j != i {
        assert a.inodes[j] == s.inodes[j];
      }
    }
  }

  /** Linking the file ialloc gave slot `next_inum - 2` keeps a packed store packed. */
  lemma PackedCreate(s: Fs, path: seq<char>) returns (i: nat)
    requires Packed(s) && s.nextInum < NINODE + 2 && CanLink(s.root)
    requires '\0' in path && NameFits(path[1..])
    ensures i == s.nextInum - 2 && Allocate(s, FT_REG).slot == Some(i)
    ensures var c := Create(Allocate(s, FT_REG).fs, path, i);
      && Packed(c)
      && c.inodes[i] == Inode(s.nextInum, FT_REG, 1, 0, s.inodes[i].data)
      && c.ftable == s.ftable
      && c.root.entries == s.root.entries + [Dirent(s.nextInum, Contents(path[1..]))]
  {
    i := PackedAllocate(s);
    var a := Allocate(s, FT_REG).fs;
    var c := Create(a, path, i);
    var d := Dirent(s.nextInum, Contents(path[1..]));
    assert c.root.entries == s.root.entries + [d] by {
      assert s.nextInum % TWO_16 == s.nextInum;
    }
    assert c.inodes == a.inodes[i := a.inodes[i].(nlink := 1)];
    assert c.nextInum == s.nextInum + 1;
    assert forall k :: 0 <= k < |c.root.entries| && c.root.entries[k].inum != 0 ==>
      2 <= c.root.entries[k].inum < c.nextInum by {
      assert forall k :: 0 <= k < |s.root.entries| ==> c.root.entries[k] == s.root.entries[k];
    }
  }

  /** The state sys_open leaves after creating `path` in a packed store, and the slot its inode took. */
  lemma CreateInPackedStore(s: Fs, path: seq<char>) returns (fd: nat, i: nat)
    requires Packed(s) && s.nextInum < NINODE + 2 && CanLink(s.root)
    requires '\0' in path && path[0] == '/' && NameFits(path[1..])
    requires Contents(path[1..]) != [] && '/' !in Contents(path[1..])
    requires Resolve(s.root, path) == Null
    requires exists k :: 0 <= k < MAX_OPEN_FILES && s.ftable[k].ftype == FdNone
    ensures OpenDefined(s, path, 1)
    ensures var r := OpenFile(s, path, 1);
      && r.ret == fd && fd < MAX_OPEN_FILES
      && i == s.nextInum - 2
      && r.fs.ftable[fd] == File(FdInode, 1, Slot(i), 0)
      && r.fs.inodes[i] == Inode(s.nextInum, FT_REG, 1, 0, s.inodes[i].data)
      && r.fs.ftable == s.ftable[fd := File(FdInode, 1, Slot(i), 0)]
      && Packed(r.fs)
      && r.fs.root.entries == s.root.entries + [Dirent(s.nextInum, Contents(path[1..]))]
  {
    i := PackedCreate(s, path);
    var c := Create(Allocate(s, FT_REG).fs, path, i);
    var name := Contents(path[1..]);
    var e := c.root.entries;
    assert FindLive(s.root.entries, name, 0).None?;
    assert FindLive(e, name, 0) == Some(|s.root.entries|) by {
      assert e[|s.root.entries|].inum != 0 && e[|s.root.entries|].name == name;
    }
    assert Resolve(c.root, path) == Slot(i);
    var g := FirstFreeFd(c.ftable, 0);
    assert g.Some? by {
      var k :| 0 <= k < MAX_OPEN_FILES && s.ftable[k].ftype == FdNone;
    }
    fd := g.value;
  }

  /** A write of `bytes` at offset 0 of a new, empty inode leaves exactly `bytes` as its contents. */
  lemma WriteFromStart(s: Fs, fd: nat, i: nat, bytes: seq<char>)
    requires fd < MAX_OPEN_FILES && i < NINODE && |bytes| <= MAX_FILE_SIZE
    requires s.ftable[fd] == File(FdInode, 1, Slot(i), 0) && s.inodes[i].size == 0
    ensures WriteDefined(s, fd, |bytes|, bytes)
    ensures var w := WriteFile(s, fd, |bytes|, bytes);
      && w.ret == |bytes|
      && w.fs.inodes[i].size == |bytes| && w.fs.inodes[i].data[..|bytes|] == bytes
      && w.fs.ftable[fd] == File(FdInode, 1, Slot(i), |bytes|)
      && (forall j :: 0 <= j < MAX_OPEN_FILES && j != fd ==> w.fs.ftable[j] == s.ftable[j])
      && w.fs.root == s.root
  {
    var n: i32 := |bytes|;
    assert (0 + n) % TWO_32 == n;
  }

  /** Closing a descriptor and reopening its path hands back the same descriptor on the inode namei names. */
  lemma CloseThenReopen(s: Fs, fd: nat, path: seq<char>)
    requires fd < MAX_OPEN_FILES && s.ftable[fd].ftype == FdInode
    requires forall j :: 0 <= j < fd ==> s.ftable[j].ftype != FdNone
    requires '\0' in path && Resolve(s.root, path) != Null
    ensures var c := CloseFile(s, fd);
      && c.ret == 0
      && OpenDefined(c.fs, path, 0)
      && var o := OpenFile(c.fs, path, 0);
      && o.ret == fd
      && o.fs.ftable[fd] == File(FdInode, 1, Resolve(s.root, path), 0)
      && o.fs.inodes == s.inodes
  {
    var c := CloseFile(s, fd);
    assert forall j :: 0 <= j < fd ==> c.fs.ftable[j] == s.ftable[j];
    assert FirstFreeFd(c.fs.ftable, 0) == Some(fd) by {
      var g := FirstFreeFd(c.fs.ftable, 0);
      assert c.fs.ftable[fd].ftype == FdNone;
    }
  }

  /** Reading `n` bytes from offset 0 of an inode of size `n` returns its first `n` bytes. */
  lemma ReadFromStart(s: Fs, fd: nat, i: nat, n: i32)
    requires fd < MAX_OPEN_FILES && i < NINODE && 0 <= n <= MAX_FILE_SIZE
    requires s.ftable[fd] == File(FdInode, 1, Slot(i), 0) && s.inodes[i].size == n
    ensures ReadDefined(s, fd, n)
    ensures var r := ReadFile(s, fd, n);
      r.ret == n && r.bytes == s.inodes[i].data[..n]
  {
    assert (0 + n) % TWO_32 == n;
    assert !PastEnd(0, n, n);
  }

  /**
   * Round trip: in a packed store, creating a file, writing `bytes` to it,
   * closing it, opening it again by name and reading as many bytes returns
   * exactly `bytes`, through the same descriptor number.
   */
  lemma CreateWriteReopenRead(s: Fs, path: seq<char>, bytes: seq<char>)
    requires Packed(s) && s.nextInum < NINODE + 2 && CanLink(s.root)
    requires '\0' in path && path[0] == '/' && NameFits(path[1..])
    requires Contents(path[1..]) != [] && '/' !in Contents(path[1..])
    requires Resolve(s.root, path) == Null
    requires exists k :: 0 <= k < MAX_OPEN_FILES && s.ftable[k].ftype == FdNone
    requires |bytes| <= MAX_FILE_SIZE
    ensures OpenDefined(s, path, 1)
    ensures
      var o1 := OpenFile(s, path, 1);
      && 0 <= o1.ret < MAX_OPEN_FILES
      && WriteDefined(o1.fs, o1.ret, |bytes|, bytes)
      && var w := WriteFile(o1.fs, o1.ret, |bytes|, bytes);
      && w.ret == |bytes|
      && var c := CloseFile(w.fs, o1.ret);
      && c.ret == 0
      && OpenDefined(c.fs, path, 0)
      && var o2 := OpenFile(c.fs, path, 0);
      && o2.ret == o1.ret
      && ReadDefined(o2.fs, o2.ret, |bytes|)
      && var r := ReadFile(o2.fs, o2.ret, |bytes|);
      && r.ret == |bytes| && r.bytes == bytes
  {
    var fd, i := CreateInPackedStore(s, path);
    var o1 := OpenFile(s, path, 1);
    WriteFromStart(o1.fs, fd, i, bytes);
    var w := WriteFile(o1.fs, fd, |bytes|, bytes);
    PackedResolveIsLive(o1.fs, path);
    assert Resolve(w.fs.root, path) == Slot(i);
    assert forall j :: 0 <= j < fd ==> w.fs.ftable[j].ftype != FdNone by {
      assert forall j :: 0 <= j < fd ==> w.fs.ftable[j] == o1.fs.ftable[j];
    }
    CloseThenReopen(w.fs, fd, path);
    var o2 := OpenFile(CloseFile(w.fs, fd).fs, path, 0);
    ReadFromStart(o2.fs, fd, i, |bytes|);
  }

  /**
   * Unlinking a file of a packed store whose live names are distinct frees
   * its inode and its entry, after which the path no longer resolves.
   */
  lemma UnlinkInPackedStore(s: Fs, path: seq<char>)
    requires Packed(s) && '\0' in path && Resolve(s.root, path).Slot?
    requires forall a, b :: 0 <= a < b < |s.root.entries| && s.root.entries[a].inum != 0 && s.root.entries[b].inum != 0 ==>
      s.root.entries[a].name != s.root.entries[b].name
    ensures UnlinkDefined(s, path)
    ensures var r := UnlinkFile(s, path);
      && r.ret == 0
      && r.fs.inodes[Resolve(s.root, path).i].inum == 0
      && Resolve(r.fs.root, path) == Null
  {
    PackedResolveIsLive(s, path);
    TailTerminated(path);
    var name := Contents(path[1..]);
    var e := s.root.entries;
    var k := FindLive(e, name, 0).value;
    var i := e[k].inum - 2;
    assert InumOf(s, Slot(i)) == e[k].inum;
    assert FindLink(e, e[k].inum, name, 0) == Some(k) by {
      var g := FindLink(e, e[k].inum, name, 0);
    }
    var e' := e[k := e[k].(inum := 0)];
    assert FindLive(e', name, 0).None? by {
      var g := FindLive(e', name, 0);
    }
  }

  // ---------------------------------------------------------------------
  // namei after an unlink

  /** The packed store with one file "a" created and unlinked: slot 0 is free, next_inum is 3. */
  const ONE_UNLINKED: Fs := ZERO_FS.(
    inodes := ZERO_FS.inodes[0 := Inode(0, FT_REG, 1, 0, ZERO_DATA)],
    root := RootInode(ROOT_INUM, FT_DIR, 1, [Dirent(0, "a")]),
    nextInum := 3)

  /**
   * As written, after a file is unlinked the next file created takes the
   * freed slot 0 with inode number 3, but namei sends its name to slot
   * 3 - 2 = 1, a free inode: the descriptor sys_open returns for "/b" does
   * not hold the new file.
   */
  lemma AsWrittenCreateAfterUnlink()
    ensures OpenDefined(ONE_UNLINKED, "/b\0", 1)
    ensures var r := OpenFile(ONE_UNLINKED, "/b\0", 1);
      && r.ret == 0
      && r.fs.inodes[0].inum == 3
      && r.fs.ftable[0].ip == Slot(1)
      && r.fs.inodes[1].inum == 0
  {
    var s := ONE_UNLINKED;
    var path := "/b\0";
    assert path[1..] == "b\0";
    ContentsOfTerminated("b", []);
    assert "b" + ['\0'] + [] == path[1..];
    assert Contents(path[1..]) == "b";
    assert FindLive(s.root.entries, "b", 0) == None;
    assert Resolve(s.root, path) == Null;
    assert FirstFree(s.inodes, 0) == Some(0);
    var a := Allocate(s, FT_REG);
    var c := Create(a.fs, path, 0);
    assert c.root.entries == [Dirent(0, "a"), Dirent(3, "b")];
    assert FindLive(c.root.entries, "b", 0) == Some(1);
    assert Resolve(c.root, path) == Slot(1);
    assert FirstFreeFd(c.ftable, 0) == Some(0);
  }

  /** namei as evidently intended: the slot whose inode carries the entry's number. */
  function FindInum(inodes: InodeTable, inum: int, k: nat): (r: Option<nat>)
    requires k <= NINODE
    ensures r.Some? ==> k <= r.value < NINODE && inodes[r.value].inum == inum
    ensures r.None? ==> forall j :: k <= j < NINODE ==> inodes[j].inum != inum
    decreases NINODE - k
  {
    if k == NINODE then None
    else if inodes[k].inum == inum then Some(k)
    else FindInum(inodes, inum, k + 1)
  }

  /** namei, with the entry's inode looked up by number rather than by `inum - 2`. */
  function ResolveFixed(s: Fs, path: seq<char>): (r: InodeRef)
    requires '\0' in path
    ensures r.Slot? ==> 0 <= r.i < NINODE
  {
    if path[0] != '/' then Null
    else
      TailTerminated(path);
      if path[1] == '\0' then Root
      else if '/' in Contents(path[1..]) then Null
      else match FindLive(s.root.entries, Contents(path[1..]), 0)
        case None => Null
        case Some(k) =>
          match FindInum(s.inodes, s.root.entries[k].inum, 0)
          case None => Null
          case Some(j) => Slot(j)
  }

  /**
   * With the corrected lookup, a file created in any store whose live
   * inodes carry numbers below `next_inum` (below 65536, so the entry keeps
   * it whole) resolves to the slot ialloc gave it, unlinked files or not.
   */
  lemma FixedResolveFindsCreatedFile(s: Fs, path: seq<char>)
    requires 2 <= s.nextInum < TWO_16
    requires forall j :: 0 <= j < NINODE ==> s.inodes[j].inum < s.nextInum
    requires '\0' in path && path[0] == '/' && NameFits(path[1..]) && CanLink(s.root)
    requires Contents(path[1..]) != [] && '/' !in Contents(path[1..])
    requires ResolveFixed(s, path) == Null && FindLive(s.root.entries, Contents(path[1..]), 0).None?
    requires FirstFree(s.inodes, 0).Some?
    ensures var a := Allocate(s, FT_REG);
      ResolveFixed(Create(a.fs, path, a.slot.value), path) == Slot(a.slot.value)
  {
    var a := Allocate(s, FT_REG);
    var i := a.slot.value;
    var c := Create(a.fs, path, i);
    var name := Contents(path[1..]);
    var e := c.root.entries;
    assert s.nextInum % TWO_16 == s.nextInum;
    assert e == s.root.entries + [Dirent(s.nextInum, name)];
    assert FindLive(e, name, 0) == Some(|s.root.entries|) by {
      var ff := FindLive(e, name, 0);
      assert e[|s.root.entries|].inum != 0 && e[|s.root.entries|].name == name;
    }
    assert FindInum(c.inodes, s.nextInum, 0) == Some(i) by {
      var g := FindInum(c.inodes, s.nextInum, 0);
      assert c.inodes[i].inum == s.nextInum;
    }
  }

  // ---------------------------------------------------------------------
  // dirlink with a long name

  /** "/" and 28 letters: 30 bytes with the terminator, well inside sys_open's 64-byte buffer. */
  const LONG_PATH: seq<char> := "/" + seq(MAX_FILENAME, _ => 'a') + "\0"

  /**
   * As written, O_CREATE on a freshly initialised store gets as far as
   * dirlink with a 30-byte path whose name needs 29 bytes with its
   * terminator: strcpy overruns the entry's 28-byte name field, so the
   * call has no defined result.
   */
  lemma AsWrittenLongNameOverruns()
    ensures '\0' in LONG_PATH && |LONG_PATH| <= 64
    ensures ReachesLink(Init(ZERO_FS), LONG_PATH, 1)
    ensures StrLen(LONG_PATH[1..]) + 1 > MAX_FILENAME
    ensures !OpenDefined(Init(ZERO_FS), LONG_PATH, 1)
  {
    var name := seq(MAX_FILENAME, _ => 'a');
    assert LONG_PATH[1..] == name + ['\0'] + [];
    ContentsOfTerminated(name, []);
    assert '/' !in name by {
      forall k | 0 <= k < |name| ensures name[k] != '/' { }
    }
    var s := Init(ZERO_FS);
    assert FindLive(s.root.entries, name, 0).None?;
    assert Resolve(s.root, LONG_PATH) == Null;
    assert FirstFree(s.inodes, 0) == Some(0);
  }

  /** dirlink as evidently intended: a name that does not fit an entry is refused with -1. */
  function LinkChecked(root: RootInode, name: seq<char>, inum: int): (r: Linked)
    requires '\0' in name
    ensures r.ret == 0 <==> CanLink(root) && NameFits(name)
    ensures r.ret != 0 ==> r.ret == -1 && r.root == root
    ensures r.ret == 0 ==> r == Link(root, name, inum)
  {
    if StrLen(name) >= MAX_FILENAME then Linked(-1, root)
    else Link(root, name, inum)
  }

  /**
   * With the check, every entry of a directory whose names all fit keeps
   * fitting, and a successful link stores the whole name, whatever name
   * the caller passes.
   */
  lemma LinkCheckedKeepsNamesShort(root: RootInode, name: seq<char>, inum: int)
    requires '\0' in name
    requires forall k :: 0 <= k < |root.entries| ==> |root.entries[k].name| < MAX_FILENAME
    ensures var r := LinkChecked(root, name, inum);
      forall k :: 0 <= k < |r.root.entries| ==> |r.root.entries[k].name| < MAX_FILENAME
    ensures var r := LinkChecked(root, name, inum);
      r.ret == 0 ==> r.root.entries[|root.entries|].name == Contents(name)
  {
    var r := LinkChecked(root, name, inum);
    if r.ret == 0 {
      var c := Contents(name);
      assert c + ['\0'] <= name;
      StrLenAt(name, |c|);
    }
  }

  // ---------------------------------------------------------------------
  // The globals, updated in place

  class FileSystem {
    var inodes: InodeTable
    var root: RootInode
    var nextInum: int
    var ftable: FileTable

    /** The globals as a value. */
    function State(): Fs
      reads this
    {
      Fs(inodes, root, nextInum, ftable)
    }

    /** The zero-initialised globals with `next_inum = 2`. */
    constructor ()
      ensures State() == ZERO_FS
    {
      inodes := seq(NINODE, _ => ZERO_INODE);
      root := RootInode(0, 0, 0, []);
      nextInum := 2;
      ftable := seq(MAX_OPEN_FILES, _ => NO_FILE);
    }

    /** fs_init. */
    method FsInit()
      modifies this
      ensures State() == Init(old(State()))
    {
      root := RootInode(ROOT_INUM, FT_DIR, 1, []);
      for i := 0 to MAX_OPEN_FILES
        invariant forall k :: 0 <= k < i ==> ftable[k] == old(ftable[k]).(ftype := FdNone)
        invariant forall k :: i <= k < MAX_OPEN_FILES ==> ftable[k] == old(ftable[k])
        invariant inodes == old(inodes) && nextInum == old(nextInum) && root == RootInode(ROOT_INUM, FT_DIR, 1, [])
      {
        ftable := ftable[i := ftable[i].(ftype := FdNone)];
      }
    }

    /** ialloc; the result is the slot index, or None for null. */
    method Ialloc(itype: int) returns (r: Option<nat>)
      modifies this
      ensures Alloc(r, State()) == Allocate(old(State()), itype)
    {
      for i := 0 to NINODE
        invariant State() == old(State())
        invariant forall j :: 0 <= j < i ==> inodes[j].inum != 0
      {
        if inodes[i].inum == 0 {
          assert FirstFree(inodes, 0) == Some(i) by {
            var g := FirstFree(inodes, 0);
          }
          inodes := inodes[i := inodes[i].(inum := nextInum)];
          nextInum := nextInum + 1;
          inodes := inodes[i := inodes[i].(itype := itype, nlink := 1, size := 0)];
          return Some(i);
        }
      }
      return None;
    }

    /** namei. */
    method Namei(path: seq<char>) returns (ip: InodeRef)
      requires '\0' in path
      ensures ip == Resolve(root, path)
    {
      if path[0] != '/' {
        return Null;
      }
      TailTerminated(path);
      if path[1] == '\0' {
        return Root;
      }
      var name := path[1..];
      if StrChr(name, '/' as i32).Some? {
        assert Char8('/' as i32) == '/';
        return Null;
      }
      assert Char8('/' as i32) == '/';
      var i := 0;
      while i < |root.entries|
        invariant 0 <= i <= |root.entries|
        invariant FindLive(root.entries, Contents(name), i) == FindLive(root.entries, Contents(name), 0)
      {
        var de := root.entries[i];
        NameMatches(de, name);
        if de.inum != 0 && StrCmp(de.name + ['\0'], name) == 0 {
          return Slot(de.inum - 2);
        }
        i := i + 1;
      }
      return Null;
    }

    /** dirlink with the root as the directory (its only caller's target). */
    method DirLink(name: seq<char>, inum: int) returns (ret: int)
      requires CanLink(root) ==> NameFits(name)
      modifies this
      ensures Linked(ret, root) == Link(old(root), name, inum)
      ensures inodes == old(inodes) && nextInum == old(nextInum) && ftable == old(ftable)
    {
      if root.itype != FT_DIR {
        return -1;
      }
      if RootSize(root) + DIRENT_SIZE > MAX_FILE_SIZE {
        return -1;
      }
      var de := Dirent(inum % TWO_16, Contents(name));
      root := root.(entries := root.entries + [de]);
      return 0;
    }

    /** sys_open. */
    method Open(path: seq<char>, flags: i32) returns (fd: int)
      requires '\0' in path && OpenDefined(State(), path, flags)
      modifies this
      ensures Outcome(fd, State()) == OpenFile(old(State()), path, flags)
    {
      if flags % 2 == 1 {
        var ip := Namei(path);
        if ip != Null {
          return -1;
        }
        var slot := Ialloc(FT_REG);
        if slot.None? {
          return -1;
        }
        LinkNew(path, slot.value);
      } else {
        var ip := Namei(path);
        if ip == Null {
          return -1;
        }
      }
      fd := AllocFd(path);
    }

    /** O_CREATE's dirlink of `path + 1` to the inode just allocated, and `ip->nlink = 1`. */
    method LinkNew(path: seq<char>, i: nat)
      requires '\0' in path && i < NINODE && (CanLink(root) ==> NameFits(path[1..]))
      modifies this
      ensures State() == Create(old(State()), path, i)
    {
      var _ := DirLink(path[1..], inodes[i].inum);
      inodes := inodes[i := inodes[i].(nlink := 1)];
    }

    /** sys_open's descriptor loop. */
    method AllocFd(path: seq<char>) returns (fd: int)
      requires '\0' in path
      modifies this
      ensures Outcome(fd, State()) == Grant(old(State()), path)
    {
      for k := 0 to MAX_OPEN_FILES
        invariant State() == old(State())
        invariant forall j :: 0 <= j < k ==> ftable[j].ftype != FdNone
      {
        if ftable[k].ftype == FdNone {
          assert FirstFreeFd(ftable, 0) == Some(k);
          var ip := Namei(path);
          ftable := ftable[k := File(FdInode, 1, ip, 0)];
          return k;
        }
      }
      return -1;
    }

    /** sys_close. */
    method Close(fd: int) returns (ret: int)
      modifies this
      ensures Outcome(ret, State()) == CloseFile(old(State()), fd)
    {
      if fd < 0 || fd >= MAX_OPEN_FILES || ftable[fd].ftype == FdNone {
        return -1;
      }
      ftable := ftable[fd := ftable[fd].(ftype := FdNone, ref := 0)];
      return 0;
    }

    /** sys_read; `bytes` are what memcpy copies to the user buffer. */
    method Read(fd: int, n: i32) returns (ret: int, bytes: seq<char>)
      requires ReadDefined(State(), fd, n)
      modifies this
      ensures ReadOutcome(ret, bytes, State()) == ReadFile(old(State()), fd, n)
    {
      if fd < 0 || fd >= MAX_OPEN_FILES || ftable[fd].ftype == FdNone {
        return -1, [];
      }
      var f := ftable[fd];
      var ip := inodes[f.ip.i];
      var count := n as int;
      if (f.off + n) % TWO_32 > ip.size {
        count := ToI32((ip.size - f.off) % TWO_32);
        if count <= 0 {
          return 0, [];
        }
      }
      bytes := ip.data[f.off..f.off + count];
      ftable := ftable[fd := f.(off := f.off + count)];
      ret := count;
    }

    /** sys_write; `bytes` are the `n` bytes at the user buffer. */
    method Write(fd: int, n: i32, bytes: seq<char>) returns (ret: int)
      requires WriteDefined(State(), fd, n, bytes)
      modifies this
      ensures Outcome(ret, State()) == WriteFile(old(State()), fd, n, bytes)
    {
      if fd < 0 || fd >= MAX_OPEN_FILES || ftable[fd].ftype == FdNone {
        return -1;
      }
      var f := ftable[fd];
      if (f.off + n) % TWO_32 > MAX_FILE_SIZE {
        return -1;
      }
      var i := f.ip.i;
      var data := inodes[i].data[..f.off] + bytes + inodes[i].data[f.off + n..];
      inodes := inodes[i := inodes[i].(data := data)];
      if f.off + n > inodes[i].size {
        inodes := inodes[i := inodes[i].(size := f.off + n)];
      }
      ftable := ftable[fd := f.(off := f.off + n)];
      return n;
    }

    /** sys_unlink. */
    method Unlink(path: seq<char>) returns (ret: int)
      requires '\0' in path && UnlinkDefined(State(), path)
      modifies this
      ensures Outcome(ret, State()) == UnlinkFile(old(State()), path)
    {
      var ip := Namei(path);
      if ip == Null {
        return -1;
      }
      TailTerminated(path);
      var name := path[1..];
      var inum := InumOf(State(), ip);
      var i := 0;
      while i < |root.entries|
        invariant 0 <= i <= |root.entries| && State() == old(State())
        invariant FindLink(root.entries, inum, Contents(name), i) == FindLink(root.entries, inum, Contents(name), 0)
      {
        var de := root.entries[i];
        NameMatches(de, name);
        if de.inum == inum && StrCmp(de.name + ['\0'], name) == 0 {
          assert FindLink(root.entries, inum, Contents(name), 0) == Some(i);
          root := root.(entries := root.entries[i := de.(inum := 0)]);
          if ip.Root? {
            root := root.(inum := 0);
          } else {
            inodes := inodes[ip.i := inodes[ip.i].(inum := 0)];
          }
          return 0;
        }
        i := i + 1;
      }
      return -1;
    }
  }
}
