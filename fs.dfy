/**
 * The crash-safe replacement for `std::fs::OpenOptions`: six booleans, custom
 * flags and a mode, turned into the flag word of `open(2)` or `EINVAL`; and
 * the `d_type` of a directory entry turned into its `S_IF*` file type.
 * Constants are those of Linux.
 */
module Fs {
  import opened Wrappers

  const O_RDONLY: bv32 := 0
  const O_WRONLY: bv32 := 1
  const O_RDWR: bv32 := 2
  const O_ACCMODE: bv32 := 3
  const O_CREAT: bv32 := 0x40
  const O_EXCL: bv32 := 0x80
  const O_TRUNC: bv32 := 0x200
  const O_APPEND: bv32 := 0x400
  const O_CLOEXEC: bv32 := 0x8_0000

  /** The errors this module reports: an OS error number, or `ErrorKind::NotFound`. */
  datatype FsError = Os(errno: int) | NotFound

  const EINVAL: int := 22

  /** `OpenOptions`, whose setters assign one field each. */
  class OpenOptions {
    var read: bool
    var write: bool
    var append: bool
    var truncate: bool
    var create: bool
    var createNew: bool
    var customFlags: bv32
    var mode: bv32

    /** `new`: nothing requested, no custom flags, mode `0o666`. */
    constructor ()
      ensures !read && !write && !append && !truncate && !create && !createNew
      ensures customFlags == 0 && mode == 0x1B6  // 0o666
    {
      read, write, append := false, false, false;
      truncate, create, createNew := false, false, false;
      customFlags := 0;
      mode := 0x1B6;
    }

    method SetRead(v: bool)
      modifies this
      ensures read == v
      ensures write == old(write) && append == old(append) && truncate == old(truncate)
      ensures create == old(create) && createNew == old(createNew)
      ensures customFlags == old(customFlags) && mode == old(mode)
    {
      read := v;
    }

    method SetWrite(v: bool)
      modifies this
      ensures write == v
      ensures read == old(read) && append == old(append) && truncate == old(truncate)
      ensures create == old(create) && createNew == old(createNew)
      ensures customFlags == old(customFlags) && mode == old(mode)
    {
      write := v;
    }

    method SetAppend(v: bool)
      modifies this
      ensures append == v
      ensures read == old(read) && write == old(write) && truncate == old(truncate)
      ensures create == old(create) && createNew == old(createNew)
      ensures customFlags == old(customFlags) && mode == old(mode)
    {
      append := v;
    }

    method SetTruncate(v: bool)
      modifies this
      ensures truncate == v
      ensures read == old(read) && write == old(write) && append == old(append)
      ensures create == old(create) && createNew == old(createNew)
      ensures customFlags == old(customFlags) && mode == old(mode)
    {
      truncate := v;
    }

    method SetCreate(v: bool)
      modifies this
      ensures create == v
      ensures read == old(read) && write == old(write) && append == old(append)
      ensures truncate == old(truncate) && createNew == old(createNew)
      ensures customFlags == old(customFlags) && mode == old(mode)
    {
      create := v;
    }

    method SetCreateNew(v: bool)
      modifies this
      ensures createNew == v
      ensures read == old(read) && write == old(write) && append == old(append)
      ensures truncate == old(truncate) && create == old(create)
      ensures customFlags == old(customFlags) && mode == old(mode)
    {
      createNew := v;
    }

    method SetCustomFlags(flags: bv32)
      modifies this
      ensures customFlags == flags
      ensures read == old(read) && write == old(write) && append == old(append)
      ensures truncate == old(truncate) && create == old(create) && createNew == old(createNew)
      ensures mode == old(mode)
    {
      customFlags := flags;
    }

    method SetMode(m: bv32)
      modifies this
      ensures mode == m
      ensures read == old(read) && write == old(write) && append == old(append)
      ensures truncate == old(truncate) && create == old(create) && createNew == old(createNew)
      ensures customFlags == old(customFlags)
    {
      mode := m;
    }

    /**
     * `get_access_mode`: read, write or both select the access mode, append
     * adds `O_APPEND` and implies writing; asking for nothing is `EINVAL`.
     */
    function GetAccessMode(): (r: Result<bv32, FsError>)
      reads this
      ensures r.Err? <==> !read && !write && !append
      ensures r.Err? ==> r.error == Os(EINVAL)
      ensures r.Ok? ==> r.value & O_ACCMODE == (if read && (write || append) then O_RDWR
                                                else if read then O_RDONLY else O_WRONLY)
      ensures r.Ok? ==> (r.value & O_APPEND != 0 <==> append)
      ensures r.Ok? ==> r.value & !(O_ACCMODE | O_APPEND) == 0
    {
      if read && !write && !append then Ok(O_RDONLY)
      else if !read && write && !append then Ok(O_WRONLY)
      else if read && write && !append then Ok(O_RDWR)
      else if !read && append then Ok(O_WRONLY | O_APPEND)
      else if read && append then Ok(O_RDWR | O_APPEND)
      else Err(Os(EINVAL))
    }

    /**
     * `get_creation_mode`: truncating or creating needs write access;
     * appending forbids truncation unless the file is created anew;
     * `create_new` wins over `create` and `truncate`.
     */
    function GetCreationMode(): (r: Result<bv32, FsError>)
      reads this
      ensures r.Err? <==> (!write && !append && (truncate || create || createNew))
                          || (append && truncate && !createNew)
      ensures r.Err? ==> r.error == Os(EINVAL)
      ensures r.Ok? && createNew ==> r.value == O_CREAT | O_EXCL
      ensures r.Ok? && !createNew ==> && (r.value & O_CREAT != 0 <==> create)
                                      && (r.value & O_TRUNC != 0 <==> truncate)
                                      && r.value & !(O_CREAT | O_TRUNC) == 0
    {
      if !write && !append && (truncate || create || createNew) then Err(Os(EINVAL))
      else if append && truncate && !createNew then Err(Os(EINVAL))
      else
        Ok(if createNew then O_CREAT | O_EXCL
           else if create && truncate then O_CREAT | O_TRUNC
           else if create then O_CREAT
           else if truncate then O_TRUNC
           else 0)
    }

    /**
     * The flag word `open` passes to `open(2)`: close-on-exec, the access
     * mode, the creation mode and the custom flags without their access-mode
     * bits. Errors come from the access mode first.
     */
    function OpenFlags(): (r: Result<bv32, FsError>)
      reads this
      ensures r.Err? <==> GetAccessMode().Err? || GetCreationMode().Err?
      ensures r.Err? ==> r.error == Os(EINVAL)
      ensures r.Ok? ==> r.value & O_CLOEXEC != 0
      ensures r.Ok? ==> r.value & O_ACCMODE == GetAccessMode().value & O_ACCMODE
    {
      match GetAccessMode()
      case Err(e) => Err(e)
      case Ok(access) =>
        match GetCreationMode()
        case Err(e) => Err(e)
        case Ok(creation) => Ok(O_CLOEXEC | access | creation | (customFlags & !O_ACCMODE))
    }
  }

  /** Or-ing other words into `y` keeps every bit of `y`. */
  lemma OrKeeps(x: bv32, y: bv32, z: bv32)
    ensures (x | y | z) & y == y
    ensures (x | y | z) & z == z
  {
  }

  /** The flag word keeps every bit of the creation mode. */
  lemma OpenFlagsKeepCreation(o: OpenOptions)
    requires o.OpenFlags().Ok?
    ensures o.OpenFlags().value & o.GetCreationMode().value == o.GetCreationMode().value
  {
    var head, creation := O_CLOEXEC | o.GetAccessMode().value, o.GetCreationMode().value;
    OrKeeps(head, creation, o.customFlags & !O_ACCMODE);
  }

  /** The flag word keeps every custom flag outside the access mode. */
  lemma OpenFlagsKeepCustom(o: OpenOptions)
    requires o.OpenFlags().Ok?
    ensures o.OpenFlags().value & (o.customFlags & !O_ACCMODE) == o.customFlags & !O_ACCMODE
  {
    var head, creation := O_CLOEXEC | o.GetAccessMode().value, o.GetCreationMode().value;
    OrKeeps(head, creation, o.customFlags & !O_ACCMODE);
  }

  /** The `S_IF*` file-type constants. */
  const S_IFIFO: bv32 := 0x1000
  const S_IFCHR: bv32 := 0x2000
  const S_IFDIR: bv32 := 0x4000
  const S_IFBLK: bv32 := 0x6000
  const S_IFREG: bv32 := 0x8000
  const S_IFLNK: bv32 := 0xA000
  const S_IFSOCK: bv32 := 0xC000

  /** The `DT_*` directory-entry types. */
  const DT_FIFO: u8 := 1
  const DT_CHR: u8 := 2
  const DT_DIR: u8 := 4
  const DT_BLK: u8 := 6
  const DT_REG: u8 := 8
  const DT_LNK: u8 := 10
  const DT_SOCK: u8 := 12

  /**
   * `DirEntry::file_type`: the seven known `d_type` values become their
   * `S_IF*` mode, whose type field is the `d_type` itself (the `DTTOIF`
   * relation); any other value is `NotFound`.
   */
  function FileType(dType: u8): (r: Result<bv32, FsError>)
    ensures r.Ok? <==> dType in {DT_FIFO, DT_CHR, DT_DIR, DT_BLK, DT_REG, DT_LNK, DT_SOCK}
    ensures r.Err? ==> r.error == NotFound
    ensures r.Ok? ==> r.value >> 12 == dType as bv32 && r.value & 0xFFF == 0
  {
    match dType
    case 2 => Ok(S_IFCHR)
    case 1 => Ok(S_IFIFO)
    case 10 => Ok(S_IFLNK)
    case 8 => Ok(S_IFREG)
    case 12 => Ok(S_IFSOCK)
    case 4 => Ok(S_IFDIR)
    case 6 => Ok(S_IFBLK)
    case _ => Err(NotFound)
  }
}
