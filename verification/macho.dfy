/**
 kext/MachO.c as written: the buffer is an array with a length, the caller's
 info struct an object that is filled field by field, and the two loops advance
 `off` and `i`.  Every array access is in bounds for arbitrary bytes, and no
 size_t sum can wrap because no object is longer than PTRDIFF_MAX.
 */
module MachO {
  import opened CTypes
  import opened MachOFormat

  class MachoInfo {
    var cputype: int
    var cpusubtype: int
    var ncmds: int
    var fat: int
    var codesign: int

    constructor ()
      ensures View() == ZERO
    {
      cputype, cpusubtype, ncmds, fat, codesign := 0, 0, 0, 0, 0;
    }

    function View(): Info
      reads this
    {
      Info(cputype, cpusubtype, ncmds, fat, codesign)
    }
  }

  /** The uint32_t at an offset of the first len bytes. */
  method Load32(data: array<byte>, len: nat, at: nat) returns (w: word)
    requires at + 4 <= len <= data.Length
    ensures w == U32(data[..len], at)
  {
    w := Word(data[at], data[at + 1], data[at + 2], data[at + 3]);
  }

  method LoadBig32(data: array<byte>, len: nat, at: nat) returns (w: word)
    requires at + 4 <= len <= data.Length
    ensures w == Ntohl(data[..len], at)
  {
    w := Word(data[at + 3], data[at + 2], data[at + 1], data[at]);
  }

  /** The loop of sebsd_macho_thin; `seen` are the commands it consumed. */
  method WalkCommands(data: array<byte>, len: nat, ncmds: word, info: MachoInfo) returns (ghost seen: seq<nat>)
    requires HEADER_SIZE <= len <= data.Length && len < PTRDIFF_LIMIT
    requires info.codesign == 0
    modifies info`codesign
    ensures seen == Walk(data[..len], HEADER_SIZE, ncmds)
    ensures info.codesign == if LC_CODE_SIGNATURE in seen then 1 else 0
  {
    ghost var d := data[..len];
    var i := 0;
    var off := HEADER_SIZE;
    seen := [];
    while i < ncmds
      invariant 0 <= i <= ncmds && HEADER_SIZE <= off <= len
      invariant Walk(d, HEADER_SIZE, ncmds) == seen + Walk(d, off, ncmds - i)
      invariant info.codesign == if LC_CODE_SIGNATURE in seen then 1 else 0
    {
      assert off + COMMAND_SIZE < SIZE_LIMIT;
      if off + COMMAND_SIZE > len {
        break;
      }
      var cmd := Load32(data, len, off);
      var cmdsize := Load32(data, len, off + 4);
      assert off + cmdsize < SIZE_LIMIT;
      if cmdsize < COMMAND_SIZE || off + cmdsize > len {
        break;
      }
      if cmd == LC_CODE_SIGNATURE {
        info.codesign := 1;
      }
      WalkMeets(d, off, ncmds - i, seen);
      seen := seen + [cmd];
      off := off + cmdsize;
      i := i + 1;
    }
    assert seen + [] == seen;
  }

  /** A walk that accepts the command at off goes on behind it. */
  lemma {:induction false} WalkMeets(d: seq<byte>, off: nat, n: nat, seen: seq<nat>)
    requires n > 0 && off + COMMAND_SIZE <= |d|
    requires COMMAND_SIZE <= U32(d, off + 4) && off + U32(d, off + 4) <= |d|
    ensures seen + Walk(d, off, n) == (seen + [U32(d, off)]) + Walk(d, off + U32(d, off + 4), n - 1)
  {}

  /** sebsd_macho_thin: `met` counts the commands its loop consumed. */
  method Thin(data: array<byte>, len: nat, info: MachoInfo) returns (error: int, ghost met: nat)
    requires len <= data.Length && len < PTRDIFF_LIMIT
    requires info.View() == ZERO
    modifies info
    ensures error == if IsThin(data[..len]) then 0 else -1
    ensures info.View() == if error == 0 then ThinInfo(data[..len]) else ZERO
    ensures error == 0 ==>
      met == |Commands(data[..len])| && met <= U32(data[..len], 16) && COMMAND_SIZE * met <= len - HEADER_SIZE
  {
    met := 0;
    if len < HEADER_SIZE {
      return -1, met;
    }
    var magic := Load32(data, len, 0);
    if magic != MH_MAGIC_64 && magic != MH_CIGAM_64 {
      return -1, met;
    }
    info.fat := 0;
    var w := Load32(data, len, 4);
    info.cputype := AsInt(w);
    w := Load32(data, len, 8);
    info.cpusubtype := AsInt(w);
    w := Load32(data, len, 16);
    info.ncmds := AsInt(w);
    ghost var seen := WalkCommands(data, len, w, info);
    met := |seen|;
    return 0, met;
  }

  /** sebsd_macho_fat */
  method Fat(data: array<byte>, len: nat, info: MachoInfo) returns (error: int)
    requires len <= data.Length && len < PTRDIFF_LIMIT
    requires info.View() == ZERO
    modifies info
    ensures error == if IsFat(data[..len]) then 0 else -1
    ensures info.View() == if error == 0 then FatInfo(data[..len]) else ZERO
  {
    ghost var d := data[..len];
    if len < FAT_HEADER_SIZE {
      return -1;
    }
    var magic := Load32(data, len, 0);
    if magic != FAT_MAGIC && magic != FAT_CIGAM {
      return -1;
    }
    var narch := LoadBig32(data, len, 4);
    assert FAT_HEADER_SIZE + FAT_ARCH_SIZE * narch < SIZE_LIMIT;
    if len < FAT_HEADER_SIZE + FAT_ARCH_SIZE * narch {
      return -1;
    }
    assert IsFat(d);
    info.fat := 1;
    info.ncmds := AsInt(narch);
    info.codesign := 0;
    ghost var sub: word := 0;
    var i := 0;
    while i < narch
      invariant 0 <= i <= narch
      invariant FirstArm64(d, narch, 0) == FirstArm64(d, narch, i)
      invariant info.View() == Info(0, 0, AsInt(narch), 1, 0)
    {
      var cputype := Load32(data, len, ArchAt(i));
      if cputype == CPU_TYPE_ARM64 {
        info.cputype := AsInt(cputype);
        var cpusubtype := Load32(data, len, ArchAt(i) + 4);
        info.cpusubtype := cpusubtype % CPU_SUBTYPE_MASK_SHIFTED;
        sub := cpusubtype;
        break;
      }
      i := i + 1;
    }
    FatInfoOf(d, narch, i, sub);
    return 0;
  }

  /** sebsd_macho_info: fills the caller's struct, or leaves it zero, or untouched when there is nothing to read. */
  method MachoInfoOf(data: array?<byte>, len: nat, info: MachoInfo?) returns (error: int)
    requires data != null ==> len <= data.Length
    requires len < PTRDIFF_LIMIT
    modifies info
    ensures data == null || len < 4 || info == null ==>
      error == -1 && (info != null ==> info.View() == old(info.View()))
    ensures data != null && len >= 4 && info != null ==>
      && error == (if Parse(data[..len]).Success? then 0 else -1)
      && info.View() == (if error == 0 then Parse(data[..len]).info else ZERO)
  {
    if data == null || len < 4 || info == null {
      return -1;
    }
    info.cputype := 0;
    info.cpusubtype := 0;
    info.ncmds := 0;
    info.fat := 0;
    info.codesign := 0;
    var magic := Load32(data, len, 0);
    if magic == FAT_MAGIC || magic == FAT_CIGAM {
      error := Fat(data, len, info);
    } else {
      ghost var met;
      error, met := Thin(data, len, info);
    }
  }
}
