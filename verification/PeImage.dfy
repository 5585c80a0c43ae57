/** What the parsers share: the executable, and the way to a data directory. */
module PeImage {
  import opened Options
  import opened Bytes
  import opened PeFile
  import opened SectionMap

  /** What the parsers know of the executable. */
  datatype Image = Image(bytes: seq<Byte>, sections: seq<Section>, alignment: U32, x64: bool)

  /** Positions in the list of directories. */
  const RESOURCE: nat := 2
  const SECURITY: nat := 4
  const BASERELOC: nat := 5

  datatype Directory = Directory(virtualAddress: U32, size: U32)

  /** _reach_directory: moves the cursor to a directory's data.  The directories are missing when the
      optional header was not parsed.  The bound lets index 16 through, which is past the array; no
      caller uses it. */
  method ReachDirectory(pe: Image, f: File, directories: Option<seq<Directory>>, index: nat) returns (ok: bool)
    requires pe.alignment > 0 && f.bytes == pe.bytes
    requires index != 16 && (directories.Some? ==> |directories.value| == 16)
    modifies f
    ensures ok == (directories.Some? && index < 16 && Reachable(pe, directories.value[index]))
    ensures f.pos == if ok then RvaOffset(pe.sections, pe.alignment, directories.value[index].virtualAddress) else old(f.pos)
  {
    if index > 0x10 {
      return false;
    }
    if directories.None? {
      return false;
    }
    var d := directories.value[index];
    if d.virtualAddress == 0 && d.size == 0 {
      return false;
    } else if d.size != 0 && d.virtualAddress == 0 {
      return false;
    }
    var offset := RvaToOffset(pe.sections, pe.alignment, d.virtualAddress);
    if offset == 0 {
      return false;
    }
    f.Seek(offset);
    return true;
  }

  predicate Reachable(pe: Image, d: Directory)
    requires pe.alignment > 0
  {
    d.virtualAddress != 0 && RvaOffset(pe.sections, pe.alignment, d.virtualAddress) != 0
  }
}
