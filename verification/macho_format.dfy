/**
 What kext/MachO.c reports about an image, stated on the bytes.

 Words are read in the host's little-endian order, whatever the magic says;
 only nfat_arch is converted.  `Parse` is the reference: a walk over the load
 commands as a recursive list, and the first matching slice of a fat file.
 `RoundTrip` relates it to a serializer, `Extends` to longer buffers.
 */
module MachOFormat {
  import opened CTypes

  /** uint32_t */
  type word = w: int | 0 <= w < UINT_LIMIT

  const MH_MAGIC_64: nat := 0xfeed_facf
  const MH_CIGAM_64: nat := 0xcffa_edfe
  const FAT_MAGIC: nat := 0xcafe_babe
  const FAT_CIGAM: nat := 0xbeba_feca
  const LC_CODE_SIGNATURE: nat := 0x1d
  const CPU_TYPE_ARM64: nat := 0x0100_000c
  const CPU_SUBTYPE_MASK_SHIFTED: nat := 0x0100_0000

  const HEADER_SIZE: nat := 32
  const COMMAND_SIZE: nat := 8
  const FAT_HEADER_SIZE: nat := 8
  const FAT_ARCH_SIZE: nat := 20

  /** Four bytes, least significant first. */
  function Word(b0: int, b1: int, b2: int, b3: int): int {
    b0 + 0x100 * b1 + 0x1_0000 * b2 + 0x100_0000 * b3
  }

  /** The uint32_t at an offset, little-endian. */
  function U32(d: seq<byte>, at: nat): (w: word)
    requires at + 4 <= |d|
  {
    Word(d[at], d[at + 1], d[at + 2], d[at + 3])
  }

  /** ntohl of it: the same four bytes, big-endian. */
  function Ntohl(d: seq<byte>, at: nat): (w: word)
    requires at + 4 <= |d|
  {
    Word(d[at + 3], d[at + 2], d[at + 1], d[at])
  }

  /** A uint32_t stored in an int. */
  function AsInt(w: word): int {
    if w < 0x8000_0000 then w else w - UINT_LIMIT
  }

  /** struct sebsd_macho_info */
  datatype Info = Info(cputype: int, cpusubtype: int, ncmds: int, fat: int, codesign: int)

  const ZERO: Info := Info(0, 0, 0, 0, 0)

  datatype Parsed = Success(info: Info) | Failure

  // ----- thin images -----

  /** The commands a walk from `off` meets, at most n of them, before the buffer or a bad size stops it. */
  function Walk(d: seq<byte>, off: nat, n: nat): (cmds: seq<nat>)
    requires off <= |d|
    ensures |cmds| <= n && COMMAND_SIZE * |cmds| <= |d| - off
    decreases n
  {
    if n == 0 || off + COMMAND_SIZE > |d| then []
    else
      var size := U32(d, off + 4);
      if size < COMMAND_SIZE || off + size > |d| then []
      else [U32(d, off)] + Walk(d, off + size, n - 1)
  }

  predicate IsThin(d: seq<byte>) {
    |d| >= HEADER_SIZE && (U32(d, 0) == MH_MAGIC_64 || U32(d, 0) == MH_CIGAM_64)
  }

  function Commands(d: seq<byte>): seq<nat>
    requires |d| >= HEADER_SIZE
  {
    Walk(d, HEADER_SIZE, U32(d, 16))
  }

  function ThinInfo(d: seq<byte>): Info
    requires |d| >= HEADER_SIZE
  {
    Info(AsInt(U32(d, 4)), AsInt(U32(d, 8)), AsInt(U32(d, 16)), 0, if LC_CODE_SIGNATURE in Commands(d) then 1 else 0)
  }

  // ----- fat images -----

  predicate FatMagic(d: seq<byte>)
    requires |d| >= 4
  {
    U32(d, 0) == FAT_MAGIC || U32(d, 0) == FAT_CIGAM
  }

  predicate IsFat(d: seq<byte>) {
    |d| >= FAT_HEADER_SIZE && FatMagic(d) && |d| >= FAT_HEADER_SIZE + FAT_ARCH_SIZE * Ntohl(d, 4)
  }

  function ArchAt(i: nat): nat {
    FAT_HEADER_SIZE + FAT_ARCH_SIZE * i
  }

  predicate IsArm64(d: seq<byte>, i: nat)
    requires ArchAt(i) + 4 <= |d|
  {
    U32(d, ArchAt(i)) == CPU_TYPE_ARM64
  }

  /** The first slice from i on whose raw cputype is CPU_TYPE_ARM64, or narch. */
  function FirstArm64(d: seq<byte>, narch: nat, i: nat): (k: nat)
    requires i <= narch && |d| >= ArchAt(narch)
    ensures i <= k <= narch
    ensures k < narch ==> IsArm64(d, k)
    ensures forall j :: i <= j < k ==> !IsArm64(d, j)
    decreases narch - i
  {
    if i == narch || IsArm64(d, i) then i else FirstArm64(d, narch, i + 1)
  }

  function FatInfo(d: seq<byte>): Info
    requires IsFat(d)
  {
    var narch := Ntohl(d, 4);
    var k := FirstArm64(d, narch, 0);
    var found := k < narch;
    Info(if found then CPU_TYPE_ARM64 else 0,
         if found then U32(d, ArchAt(k) + 4) % CPU_SUBTYPE_MASK_SHIFTED else 0,
         AsInt(narch), 1, 0)
  }

  /** sebsd_macho_info on a buffer it was really given. */
  function Parse(d: seq<byte>): Parsed {
    if |d| < 4 then Failure
    else if FatMagic(d) then (if IsFat(d) then Success(FatInfo(d)) else Failure)
    else if IsThin(d) then Success(ThinInfo(d))
    else Failure
  }

  // ----- longer buffers -----

  lemma {:induction false} U32Extends(d: seq<byte>, more: seq<byte>, at: nat)
    requires at + 4 <= |d|
    ensures U32(d + more, at) == U32(d, at)
    ensures Ntohl(d + more, at) == Ntohl(d, at)
  {}

  /** More bytes can only lengthen a walk, and cannot change one that met all n commands. */
  lemma {:induction false} WalkExtends(d: seq<byte>, more: seq<byte>, off: nat, n: nat)
    requires off <= |d|
    ensures Walk(d, off, n) <= Walk(d + more, off, n)
    ensures |Walk(d, off, n)| == n ==> Walk(d + more, off, n) == Walk(d, off, n)
    decreases n
  {
    if n > 0 && off + COMMAND_SIZE <= |d| {
      U32Extends(d, more, off);
      U32Extends(d, more, off + 4);
      var size := U32(d, off + 4);
      if COMMAND_SIZE <= size && off + size <= |d| {
        WalkExtends(d, more, off + size, n - 1);
      }
    }
  }

  lemma {:induction false} FirstArm64Extends(d: seq<byte>, more: seq<byte>, narch: nat, i: nat)
    requires i <= narch && |d| >= ArchAt(narch)
    ensures FirstArm64(d + more, narch, i) == FirstArm64(d, narch, i)
    decreases narch - i
  {
    if i < narch {
      U32Extends(d, more, ArchAt(i));
      FirstArm64Extends(d, more, narch, i + 1);
    }
  }

  /**
   If a buffer parses, every extension of it parses, and reports the same
   except that codesign may go from 0 to 1: exactly when the walk was cut short
   and the signature is among the commands it had not met.
   */
  lemma {:induction false} Extends(d: seq<byte>, more: seq<byte>)
    requires Parse(d).Success?
    ensures Parse(d + more).Success?
    ensures
      var a, b := Parse(d).info, Parse(d + more).info;
      && b == a.(codesign := b.codesign)
      && a.codesign <= b.codesign
      && (a.codesign != b.codesign <==>
            && a.fat == 0 && LC_CODE_SIGNATURE !in Commands(d) && |Commands(d)| <= |Commands(d + more)|
            && LC_CODE_SIGNATURE in Commands(d + more)[|Commands(d)|..])
      && (a.codesign != b.codesign ==> a.fat == 0 && |Commands(d)| < U32(d, 16))
  {
    U32Extends(d, more, 0);
    if FatMagic(d) {
      FatExtends(d, more);
    } else {
      ThinExtends(d, more);
    }
  }

  lemma {:induction false} FatExtends(d: seq<byte>, more: seq<byte>)
    requires IsFat(d)
    ensures IsFat(d + more) && FatInfo(d + more) == FatInfo(d)
  {
    U32Extends(d, more, 0);
    U32Extends(d, more, 4);
    var narch := Ntohl(d, 4);
    FirstArm64Extends(d, more, narch, 0);
    var k := FirstArm64(d, narch, 0);
    if k < narch {
      U32Extends(d, more, ArchAt(k) + 4);
    }
  }

  lemma {:induction false} ThinExtends(d: seq<byte>, more: seq<byte>)
    requires IsThin(d)
    ensures IsThin(d + more) && Commands(d) <= Commands(d + more)
    ensures |Commands(d)| == U32(d, 16) ==> Commands(d + more) == Commands(d)
    ensures ThinInfo(d + more) == ThinInfo(d).(codesign := ThinInfo(d + more).codesign)
    ensures LC_CODE_SIGNATURE in Commands(d + more) <==>
      LC_CODE_SIGNATURE in Commands(d) || LC_CODE_SIGNATURE in Commands(d + more)[|Commands(d)|..]
  {
    U32Extends(d, more, 0);
    U32Extends(d, more, 4);
    U32Extends(d, more, 8);
    U32Extends(d, more, 16);
    WalkExtends(d, more, HEADER_SIZE, U32(d, 16));
    var met, all := Commands(d), Commands(d + more);
    assert all == met + all[|met|..];
  }

  // ----- serializing -----

  /** A mach_header_64 without its command count. */
  datatype Header = Header(magic: word, cputype: word, cpusubtype: word, filetype: word,
                           sizeofcmds: word, flags: word, reserved: word)

  /** The magic of a 64-bit image, in either byte order; nothing else is swapped. */
  predicate Is64Bit(h: Header) {
    h.magic == 0xfeed_facf || h.magic == 0xcffa_edfe
  }

  /** A load command: its number and the bytes after cmd and cmdsize. */
  datatype LoadCommand = LoadCommand(cmd: word, body: seq<byte>)

  type Command = c: LoadCommand | COMMAND_SIZE + |c.body| < UINT_LIMIT witness LoadCommand(0, [])

  /** The n low bytes of w, least significant first. */
  function Bytes(w: nat, n: nat): (s: seq<byte>)
    ensures |s| == n
  {
    if n == 0 then [] else [w % 0x100] + Bytes(w / 0x100, n - 1)
  }

  function LE32(w: word): (s: seq<byte>)
    ensures |s| == 4 && U32(s, 0) == w
  {
    assert U32(Bytes(w, 4), 0) == w by { BytesOfWord(w); }
    Bytes(w, 4)
  }

  lemma {:induction false} BytesOfWord(w: word)
    ensures U32(Bytes(w, 4), 0) == w
  {
    var q1 := w / 0x100;
    var q2 := q1 / 0x100;
    var q3 := q2 / 0x100;
    assert Bytes(q3, 1) == [q3 % 0x100];
    assert Bytes(q2, 2) == [q2 % 0x100, q3 % 0x100];
    assert Bytes(q1, 3) == [q1 % 0x100, q2 % 0x100, q3 % 0x100];
    assert Bytes(w, 4) == [w % 0x100, q1 % 0x100, q2 % 0x100, q3 % 0x100];
  }

  function PutWords(ws: seq<word>): (s: seq<byte>)
    ensures |s| == 4 * |ws|
  {
    if ws == [] then [] else LE32(ws[0]) + PutWords(ws[1..])
  }

  function Words(h: Header, ncmds: word): seq<word> {
    [h.magic, h.cputype, h.cpusubtype, h.filetype, ncmds, h.sizeofcmds, h.flags, h.reserved]
  }

  function PutHeader(h: Header, ncmds: word): (s: seq<byte>)
    ensures |s| == HEADER_SIZE
  {
    PutWords(Words(h, ncmds))
  }

  function PutCommand(c: Command): (s: seq<byte>)
    ensures |s| == COMMAND_SIZE + |c.body|
  {
    LE32(c.cmd) + LE32(COMMAND_SIZE + |c.body|) + c.body
  }

  function PutCommands(cmds: seq<Command>): seq<byte> {
    if cmds == [] then [] else PutCommand(cmds[0]) + PutCommands(cmds[1..])
  }

  function Numbers(cmds: seq<Command>): (r: seq<nat>)
    ensures |r| == |cmds| && forall i :: 0 <= i < |cmds| ==> r[i] == cmds[i].cmd
  {
    seq(|cmds|, i requires 0 <= i < |cmds| => cmds[i].cmd)
  }

  function Image(h: Header, cmds: seq<Command>): seq<byte>
    requires |cmds| < UINT_LIMIT
  {
    PutHeader(h, |cmds|) + PutCommands(cmds)
  }

  /** A word written between other bytes is read back. */
  lemma {:induction false} ReadsBack(pre: seq<byte>, w: word, post: seq<byte>)
    ensures U32(pre + LE32(w) + post, |pre|) == w
  {
    assert pre + LE32(w) + post == pre + (LE32(w) + post);
    U32Shift(pre, LE32(w) + post, 0);
    U32Extends(LE32(w), post, 0);
  }

  /** A walk that stands on a serialized command meets it and goes on behind it. */
  lemma {:induction false} WalkStep(pre: seq<byte>, c: Command, rest: seq<byte>, n: nat)
    requires n > 0
    ensures
      var d := pre + PutCommand(c) + rest;
      Walk(d, |pre|, n) == [c.cmd] + Walk(d, |pre + PutCommand(c)|, n - 1)
  {
    var d := pre + PutCommand(c) + rest;
    var size := LE32(COMMAND_SIZE + |c.body|);
    assert d == pre + LE32(c.cmd) + (size + c.body + rest);
    ReadsBack(pre, c.cmd, size + c.body + rest);
    assert d == (pre + LE32(c.cmd)) + size + (c.body + rest);
    ReadsBack(pre + LE32(c.cmd), COMMAND_SIZE + |c.body|, c.body + rest);
  }

  /** Every word of a serialized header is read back at its offset. */
  lemma {:induction false} WordsReadBack(ws: seq<word>, post: seq<byte>, i: nat)
    requires i < |ws|
    ensures U32(PutWords(ws) + post, 4 * i) == ws[i]
  {
    var rest := PutWords(ws[1..]) + post;
    assert PutWords(ws) + post == LE32(ws[0]) + rest;
    if i == 0 {
      U32Extends(LE32(ws[0]), rest, 0);
    } else {
      WordsReadBack(ws[1..], post, i - 1);
      U32Shift(LE32(ws[0]), rest, 4 * (i - 1));
    }
  }

  lemma {:induction false} U32Shift(pre: seq<byte>, d: seq<byte>, at: nat)
    requires at + 4 <= |d|
    ensures U32(pre + d, |pre| + at) == U32(d, at)
  {}

  lemma {:induction false} HeaderReadsBack(h: Header, ncmds: word, rest: seq<byte>)
    requires Is64Bit(h)
    ensures
      var d := PutHeader(h, ncmds) + rest;
      && IsThin(d) && !FatMagic(d)
      && U32(d, 4) == h.cputype && U32(d, 8) == h.cpusubtype && U32(d, 16) == ncmds
  {
    var ws := Words(h, ncmds);
    WordsReadBack(ws, rest, 0);
    WordsReadBack(ws, rest, 1);
    WordsReadBack(ws, rest, 2);
    WordsReadBack(ws, rest, 4);
  }

  /** No whole load command starts here: too short, or a size below 8 or beyond the end. */
  predicate Stops(tail: seq<byte>) {
    |tail| < 8 || U32(tail, 4) < 8 || U32(tail, 4) > |tail|
  }

  lemma {:induction false} WalkAtTail(pre: seq<byte>, tail: seq<byte>, n: nat)
    requires Stops(tail)
    ensures Walk(pre + tail, |pre|, n) == []
  {
    if n > 0 && |tail| >= 8 {
      U32Shift(pre, tail, 4);
    }
  }

  lemma {:induction false} Regroup(a: seq<byte>, b: seq<byte>, c: seq<byte>, d: seq<byte>)
    ensures a + (b + c) + d == a + b + (c + d) == (a + b) + c + d
  {}

  lemma {:induction false} WalkOver(pre: seq<byte>, c: Command, others: seq<byte>, tail: seq<byte>, n: nat)
    requires n > 0
    ensures Walk(pre + (PutCommand(c) + others) + tail, |pre|, n)
         == [c.cmd] + Walk((pre + PutCommand(c)) + others + tail, |pre + PutCommand(c)|, n - 1)
  {
    Regroup(pre, PutCommand(c), others, tail);
    WalkStep(pre, c, others + tail, n);
  }

  /** The numbers of the first n commands, or of all if there are fewer. */
  function FirstNumbers(cmds: seq<Command>, n: nat): seq<nat> {
    Numbers(cmds[..if n <= |cmds| then n else |cmds|])
  }

  lemma {:induction false} FirstNumbersStep(cmds: seq<Command>, n: nat)
    requires n > 0 && cmds != []
    ensures FirstNumbers(cmds, n) == [cmds[0].cmd] + FirstNumbers(cmds[1..], n - 1)
  {
    var m := if n <= |cmds| then n else |cmds|;
    assert cmds[..m][1..] == cmds[1..][..m - 1];
  }

  lemma {:induction false} WalkMeetsFirst(pre: seq<byte>, cmds: seq<Command>, tail: seq<byte>, n: nat,
                                          met: seq<nat>, rest: seq<nat>)
    requires n > 0 && cmds != [] && met == Walk(pre + PutCommands(cmds) + tail, |pre|, n)
    requires
      var pre' := pre + PutCommand(cmds[0]);
      rest == Walk(pre' + PutCommands(cmds[1..]) + tail, |pre'|, n - 1)
    ensures met == [cmds[0].cmd] + rest
  {
    WalkOver(pre, cmds[0], PutCommands(cmds[1..]), tail, n);
  }

  /** A walk over serialized commands meets as many of them as it was told to, and nothing of a tail that stops it. */
  lemma {:induction false} WalkStopsAt(pre: seq<byte>, cmds: seq<Command>, tail: seq<byte>, n: nat, met: seq<nat>)
    requires Stops(tail) || n <= |cmds|
    requires met == Walk(pre + PutCommands(cmds) + tail, |pre|, n)
    ensures met == FirstNumbers(cmds, n)
    decreases |cmds|
  {
    if cmds == [] {
      assert pre + [] + tail == pre + tail;
      if n > 0 {
        WalkAtTail(pre, tail, n);
      }
    } else if n > 0 {
      var c, others := cmds[0], cmds[1..];
      var rest := Walk(pre + PutCommand(c) + PutCommands(others) + tail, |pre + PutCommand(c)|, n - 1);
      WalkStopsAt(pre + PutCommand(c), others, tail, n - 1, rest);
      FirstNumbersStep(cmds, n);
      WalkMeetsFirst(pre, cmds, tail, n, met, rest);
    }
  }

  /**
   Parsing a serialized header that announces ncmds commands, followed by
   commands and any tail: the header's fields and ncmds come back, and codesign
   is 1 exactly when LC_CODE_SIGNATURE (0x1d) is among the first ncmds of the
   commands.  Nothing of a tail that holds no whole command is looked at.
   */
  lemma {:induction false} ParseExactly(h: Header, ncmds: word, cmds: seq<Command>, tail: seq<byte>)
    requires Is64Bit(h) && (Stops(tail) || ncmds <= |cmds|)
    ensures
      var d := PutHeader(h, ncmds) + PutCommands(cmds) + tail;
      var signed := exists i :: 0 <= i < ncmds && i < |cmds| && cmds[i].cmd == 0x1d;
      && Commands(d) == FirstNumbers(cmds, ncmds)
      && Parse(d) == Success(Info(AsInt(h.cputype), AsInt(h.cpusubtype), AsInt(ncmds), 0, if signed then 1 else 0))
  {
    var d := PutHeader(h, ncmds) + PutCommands(cmds) + tail;
    assert d == PutHeader(h, ncmds) + (PutCommands(cmds) + tail);
    HeaderReadsBack(h, ncmds, PutCommands(cmds) + tail);
    WalkStopsAt(PutHeader(h, ncmds), cmds, tail, ncmds, Commands(d));
    var m := if ncmds <= |cmds| then ncmds else |cmds|;
    SignedAmong(cmds, m);
  }

  lemma {:induction false} SignedAmong(cmds: seq<Command>, m: nat)
    requires m <= |cmds|
    ensures LC_CODE_SIGNATURE in Numbers(cmds[..m]) <==> exists i :: 0 <= i < m && cmds[i].cmd == 0x1d
  {
    if i :| 0 <= i < m && cmds[i].cmd == 0x1d {
      assert Numbers(cmds[..m])[i] == LC_CODE_SIGNATURE;
    }
    if LC_CODE_SIGNATURE in Numbers(cmds[..m]) {
      var i :| 0 <= i < m && Numbers(cmds[..m])[i] == LC_CODE_SIGNATURE;
      assert cmds[i].cmd == 0x1d;
    }
  }

  /**
   Serializing any header with any list of load commands, followed by any
   bytes, and parsing the result gives the header's fields back, the length of
   the list, and codesign exactly when the list holds LC_CODE_SIGNATURE (0x1d).
   */
  lemma {:induction false} RoundTrip(h: Header, cmds: seq<Command>, trailing: seq<byte>)
    requires Is64Bit(h) && |cmds| < UINT_LIMIT
    ensures
      var signed := exists i :: 0 <= i < |cmds| && cmds[i].cmd == 0x1d;
      Parse(Image(h, cmds) + trailing)
        == Success(Info(AsInt(h.cputype), AsInt(h.cpusubtype), AsInt(|cmds|), 0, if signed then 1 else 0))
  {
    ParseExactly(h, |cmds|, cmds, trailing);
  }

  // ----- cut images -----

  /** Where command number i of a serialized image ends. */
  function EndOf(cmds: seq<Command>, i: nat): nat
    requires i < |cmds|
  {
    32 + |PutCommands(cmds[..i + 1])|
  }

  lemma {:induction false} PutCommandsSnoc(cmds: seq<Command>, c: Command)
    ensures PutCommands(cmds + [c]) == PutCommands(cmds) + PutCommand(c)
  {
    if cmds == [] {
      assert [] + [c] == [c] && PutCommands([c]) == PutCommand(c) + [];
    } else {
      assert (cmds + [c])[1..] == cmds[1..] + [c];
      PutCommandsSnoc(cmds[1..], c);
    }
  }

  lemma {:induction false} PutCommandsPrefix(cmds: seq<Command>, i: nat)
    requires i <= |cmds|
    ensures PutCommands(cmds[..i]) <= PutCommands(cmds)
    ensures i < |cmds| ==> PutCommands(cmds[..i + 1]) == PutCommands(cmds[..i]) + PutCommand(cmds[i])
    decreases |cmds| - i
  {
    if i == |cmds| {
      assert cmds[..i] == cmds;
    } else {
      assert cmds[..i + 1] == cmds[..i] + [cmds[i]];
      PutCommandsSnoc(cmds[..i], cmds[i]);
      PutCommandsPrefix(cmds, i + 1);
    }
  }

  lemma {:induction false} EndsGrow(cmds: seq<Command>, i: nat, j: nat)
    requires i <= j < |cmds|
    ensures EndOf(cmds, i) <= EndOf(cmds, j)
    decreases j
  {
    if i < j {
      PutCommandsPrefix(cmds, j);
      EndsGrow(cmds, i, j - 1);
    }
  }

  /** How many commands fit into that many bytes. */
  function Fitting(cmds: seq<Command>, room: nat, i: nat): (k: nat)
    requires i <= |cmds| && |PutCommands(cmds[..i])| <= room
    ensures i <= k <= |cmds| && |PutCommands(cmds[..k])| <= room
    ensures k < |cmds| ==> EndOf(cmds, k) > 32 + room
    decreases |cmds| - i
  {
    if i == |cmds| || |PutCommands(cmds[..i + 1])| > room then i else Fitting(cmds, room, i + 1)
  }

  /** What is left of the first command that does not fit holds no whole command. */
  lemma {:induction false} CutCommandStops(c: Command, tail: seq<byte>)
    requires tail <= PutCommand(c) && |tail| < |PutCommand(c)|
    ensures Stops(tail)
  {
    if |tail| >= 8 {
      var size := LE32(COMMAND_SIZE + |c.body|);
      assert PutCommand(c) == LE32(c.cmd) + size + c.body;
      ReadsBack(LE32(c.cmd), COMMAND_SIZE + |c.body|, c.body);
      U32Extends(tail, PutCommand(c)[|tail|..], 4);
      assert tail + PutCommand(c)[|tail|..] == PutCommand(c);
    }
  }

  lemma {:induction false} FitIffEnds(cmds: seq<Command>, n: nat, k: nat, i: nat)
    requires k <= |cmds| && 32 + |PutCommands(cmds[..k])| <= n && (k < |cmds| ==> EndOf(cmds, k) > n)
    requires i < |cmds|
    ensures EndOf(cmds, i) <= n <==> i < k
  {
    if i < k {
      EndsGrow(cmds, i, k - 1);
    } else {
      EndsGrow(cmds, k, i);
    }
  }

  /** The commands that end at or before n are the first k. */
  lemma {:induction false} FitsUpTo(cmds: seq<Command>, n: nat) returns (k: nat)
    requires n >= 32
    ensures k <= |cmds| && 32 + |PutCommands(cmds[..k])| <= n && (k < |cmds| ==> EndOf(cmds, k) > n)
    ensures forall i :: 0 <= i < |cmds| ==> (EndOf(cmds, i) <= n <==> i < k)
  {
    k := Fitting(cmds, n - 32, 0);
    forall i | 0 <= i < |cmds| ensures EndOf(cmds, i) <= n <==> i < k {
      FitIffEnds(cmds, n, k, i);
    }
  }

  lemma {:induction false} CutThin(h: Header, cmds: seq<Command>, n: nat, k: nat)
    requires Is64Bit(h) && |cmds| < UINT_LIMIT && 32 <= n <= |Image(h, cmds)|
    requires k <= |cmds| && 32 + |PutCommands(cmds[..k])| <= n && (k < |cmds| ==> EndOf(cmds, k) > n)
    ensures
      var signed := exists i :: 0 <= i < k && cmds[i].cmd == 0x1d;
      && Commands(Image(h, cmds)[..n]) == Numbers(cmds[..k])
      && Parse(Image(h, cmds)[..n])
         == Success(Info(AsInt(h.cputype), AsInt(h.cpusubtype), AsInt(|cmds|), 0, if signed then 1 else 0))
  {
    var fit := cmds[..k];
    var tail := CutImage(h, cmds, n, k);
    ParseExactly(h, |cmds|, fit, tail);
    assert fit[..k] == fit;
    SignedAmong(fit, k);
    SignedAmong(cmds, k);
  }

  /**
   A buffer that holds only the first n bytes of an image: without the whole
   header it is refused; otherwise the commands met are exactly those that end
   at or before n, and codesign is 1 exactly when a signature is among them,
   whatever ncmds says.
   */
  lemma {:induction false} CutRoundTrip(h: Header, cmds: seq<Command>, n: nat)
    requires Is64Bit(h) && |cmds| < UINT_LIMIT && n <= |Image(h, cmds)|
    ensures n < 32 ==> Parse(Image(h, cmds)[..n]) == Failure
    ensures n >= 32 ==>
      var signed := exists i :: 0 <= i < |cmds| && EndOf(cmds, i) <= n && cmds[i].cmd == 0x1d;
      Parse(Image(h, cmds)[..n]) ==
        Success(Info(AsInt(h.cputype), AsInt(h.cpusubtype), AsInt(|cmds|), 0, if signed then 1 else 0))
    ensures n >= 32 ==>
      exists k :: 0 <= k <= |cmds| && Commands(Image(h, cmds)[..n]) == Numbers(cmds[..k])
        && forall i :: 0 <= i < |cmds| ==> (EndOf(cmds, i) <= n <==> i < k)
  {
    if n < 32 {
      CutHeader(h, cmds, n);
    } else {
      var k := FitsUpTo(cmds, n);
      CutThin(h, cmds, n, k);
    }
  }

  lemma {:induction false} CutHeader(h: Header, cmds: seq<Command>, n: nat)
    requires Is64Bit(h) && |cmds| < UINT_LIMIT && n < 32
    ensures Parse(Image(h, cmds)[..n]) == Failure
  {
    HeaderReadsBack(h, |cmds|, PutCommands(cmds));
    ShortIsRefused(Image(h, cmds), n);
  }

  lemma {:induction false} ShortIsRefused(d: seq<byte>, n: nat)
    requires IsThin(d) && !FatMagic(d) && n < 32
    ensures Parse(d[..n]) == Failure
  {
    if n >= 4 {
      assert d[..n] + d[n..] == d;
      U32Extends(d[..n], d[n..], 0);
    }
  }

  /** The cut image is the header, the commands that fit, and the rest of one that does not. */
  lemma {:induction false} CutImage(h: Header, cmds: seq<Command>, n: nat, k: nat) returns (tail: seq<byte>)
    requires |cmds| < UINT_LIMIT && 32 <= n <= |Image(h, cmds)| && k <= |cmds|
    requires 32 + |PutCommands(cmds[..k])| <= n && (k < |cmds| ==> EndOf(cmds, k) > n)
    ensures Image(h, cmds)[..n] == PutHeader(h, |cmds|) + PutCommands(cmds[..k]) + tail
    ensures Stops(tail)
  {
    var all, fit := PutCommands(cmds), PutCommands(cmds[..k]);
    PutCommandsPrefix(cmds, k);
    tail := all[|fit|..n - 32];
    CutAfter(PutHeader(h, |cmds|), all, fit, n - 32);
    if k < |cmds| {
      PutCommandsPrefix(cmds, k + 1);
      CutInside(all, fit, PutCommand(cmds[k]), n - 32);
      CutCommandStops(cmds[k], tail);
    } else {
      assert cmds[..k] == cmds;
    }
  }

  lemma {:induction false} CutAfter(head: seq<byte>, all: seq<byte>, fit: seq<byte>, m: nat)
    requires fit <= all && |fit| <= m <= |all|
    ensures (head + all)[..|head| + m] == head + fit + all[|fit|..m]
  {
    assert all[..m] == fit + all[|fit|..m];
  }

  lemma {:induction false} CutInside(all: seq<byte>, fit: seq<byte>, one: seq<byte>, m: nat)
    requires fit + one <= all && |fit| <= m < |fit + one|
    ensures all[|fit|..m] <= one && |all[|fit|..m]| < |one|
  {
    assert all[|fit|..m] == (fit + one)[|fit|..m] == one[..m - |fit|];
  }

  // ----- fat images -----

  /** A fat_arch, word by word as it is stored; the code compares its fields raw. */
  datatype FatArch = FatArch(cputype: word, cpusubtype: word, offset: word, size: word, align: word)

  /** A word in network order. */
  function BE32(w: word): (s: seq<byte>)
    ensures |s| == 4 && Ntohl(s, 0) == w
  {
    var s := LE32(w);
    [s[3], s[2], s[1], s[0]]
  }

  function ArchWords(archs: seq<FatArch>): (ws: seq<word>)
    ensures |ws| == 5 * |archs|
  {
    if archs == [] then []
    else
      var a := archs[0];
      [a.cputype, a.cpusubtype, a.offset, a.size, a.align] + ArchWords(archs[1..])
  }

  function FatHead(magic: word, narch: word): (s: seq<byte>)
    ensures |s| == 8
  {
    LE32(magic) + BE32(narch)
  }

  function FatImage(magic: word, archs: seq<FatArch>): (s: seq<byte>)
    requires |archs| < UINT_LIMIT
    ensures |s| == 8 + 20 * |archs|
  {
    FatHead(magic, |archs|) + PutWords(ArchWords(archs))
  }

  lemma {:induction false} ArchWordsAt(archs: seq<FatArch>, i: nat)
    requires i < |archs|
    ensures ArchWords(archs)[5 * i] == archs[i].cputype && ArchWords(archs)[5 * i + 1] == archs[i].cpusubtype
  {
    if i > 0 {
      ArchWordsAt(archs[1..], i - 1);
    }
  }

  lemma {:induction false} FatHeadReadsBack(magic: word, narch: word, rest: seq<byte>)
    ensures U32(FatHead(magic, narch) + rest, 0) == magic && Ntohl(FatHead(magic, narch) + rest, 4) == narch
  {
    var d := FatHead(magic, narch) + rest;
    assert d == LE32(magic) + (BE32(narch) + rest);
    U32Extends(LE32(magic), BE32(narch) + rest, 0);
    assert d == (LE32(magic) + BE32(narch)) + rest;
    U32Extends(LE32(magic) + BE32(narch), rest, 4);
  }

  lemma {:induction false} ArchReadsBack(magic: word, archs: seq<FatArch>, trailing: seq<byte>, i: nat)
    requires |archs| < UINT_LIMIT && i < |archs|
    ensures
      var d := FatImage(magic, archs) + trailing;
      U32(d, ArchAt(i)) == archs[i].cputype && U32(d, ArchAt(i) + 4) == archs[i].cpusubtype
  {
    ArchWordsAt(archs, i);
    BehindHead(FatHead(magic, |archs|), ArchWords(archs), trailing, 5 * i);
    BehindHead(FatHead(magic, |archs|), ArchWords(archs), trailing, 5 * i + 1);
  }

  lemma {:induction false} BehindHead(head: seq<byte>, ws: seq<word>, trailing: seq<byte>, j: nat)
    requires |head| == 8 && j < |ws|
    ensures U32(head + PutWords(ws) + trailing, 8 + 4 * j) == ws[j]
  {
    WordsReadBack(ws, trailing, j);
    U32Shift(head, PutWords(ws) + trailing, 4 * j);
    assert head + PutWords(ws) + trailing == head + (PutWords(ws) + trailing);
  }

  /**
   Parsing a serialized fat header with any slices and trailing bytes: the
   number of slices comes back, and of the first slice whose stored cputype is
   CPU_TYPE_ARM64 (0x100000c) that type and the low 24 bits of the subtype, or
   zeros if there is none.  Either magic is accepted, and nothing is swapped
   but the number of slices.
   */
  lemma {:induction false} FatRoundTrip(magic: word, archs: seq<FatArch>, trailing: seq<byte>, k: nat)
    requires (magic == 0xcafe_babe || magic == 0xbeba_feca) && |archs| < UINT_LIMIT
    requires k <= |archs| && forall i :: 0 <= i < k ==> archs[i].cputype != 0x100_000c
    requires k < |archs| ==> archs[k].cputype == 0x100_000c
    ensures Parse(FatImage(magic, archs) + trailing) == Success(
      if k < |archs| then Info(0x100_000c, archs[k].cpusubtype % 0x100_0000, AsInt(|archs|), 1, 0)
      else Info(0, 0, AsInt(|archs|), 1, 0))
  {
    FatImageHead(magic, archs, trailing);
    FirstReadsBack(magic, archs, trailing, k);
    FatInfoOf(FatImage(magic, archs) + trailing, |archs|, k, if k < |archs| then archs[k].cpusubtype else 0);
  }

  lemma {:induction false} FatImageHead(magic: word, archs: seq<FatArch>, trailing: seq<byte>)
    requires (magic == 0xcafe_babe || magic == 0xbeba_feca) && |archs| < UINT_LIMIT
    ensures
      var d := FatImage(magic, archs) + trailing;
      IsFat(d) && Ntohl(d, 4) == |archs|
  {
    var head, words := FatHead(magic, |archs|), PutWords(ArchWords(archs));
    FatHeadReadsBack(magic, |archs|, words);
    U32Extends(head + words, trailing, 0);
    U32Extends(head + words, trailing, 4);
  }

  lemma {:induction false} FirstReadsBack(magic: word, archs: seq<FatArch>, trailing: seq<byte>, k: nat)
    requires |archs| < UINT_LIMIT
    requires k <= |archs| && forall i :: 0 <= i < k ==> archs[i].cputype != 0x100_000c
    requires k < |archs| ==> archs[k].cputype == 0x100_000c
    ensures
      var d := FatImage(magic, archs) + trailing;
      && FirstArm64(d, |archs|, 0) == k
      && (k < |archs| ==> U32(d, ArchAt(k) + 4) == archs[k].cpusubtype)
  {
    var d := FatImage(magic, archs) + trailing;
    forall i | 0 <= i < k ensures !IsArm64(d, i) {
      ArchReadsBack(magic, archs, trailing, i);
    }
    if k < |archs| {
      ArchReadsBack(magic, archs, trailing, k);
    }
    FirstIs(d, |archs|, k);
  }

  /** What a fat image reports, once its slices have been searched. */
  lemma {:induction false} FatInfoOf(d: seq<byte>, narch: word, k: nat, sub: word)
    requires IsFat(d) && Ntohl(d, 4) == narch
    requires FirstArm64(d, narch, 0) == k && (k < narch ==> U32(d, ArchAt(k) + 4) == sub)
    ensures FatInfo(d) == if k < narch then Info(0x100_000c, sub % 0x100_0000, AsInt(narch), 1, 0)
                          else Info(0, 0, AsInt(narch), 1, 0)
  {}

  lemma {:induction false} FirstIs(d: seq<byte>, narch: nat, k: nat)
    requires k <= narch && |d| >= ArchAt(narch)
    requires forall i :: 0 <= i < k ==> !IsArm64(d, i)
    requires k < narch ==> IsArm64(d, k)
    ensures FirstArm64(d, narch, 0) == k
  {
    var found := FirstArm64(d, narch, 0);
  }

  /** A fat header without all of its slices is refused, however little is missing. */
  lemma {:induction false} FatCut(magic: word, archs: seq<FatArch>, n: nat)
    requires (magic == 0xcafe_babe || magic == 0xbeba_feca) && |archs| < UINT_LIMIT
    requires n < |FatImage(magic, archs)|
    ensures Parse(FatImage(magic, archs)[..n]) == Failure
  {
    var d := FatImage(magic, archs);
    FatHeadReadsBack(magic, |archs|, PutWords(ArchWords(archs)));
    if n >= 4 {
      assert d[..n] + d[n..] == d;
      U32Extends(d[..n], d[n..], 0);
    }
    if n >= 8 {
      U32Extends(d[..n], d[n..], 4);
    }
  }

  // ----- the bytes of an accepted image -----

  /** What is accepted starts with one of four byte sequences: either order of either magic. */
  lemma {:induction false} AcceptedMagics(d: seq<byte>)
    requires Parse(d).Success?
    ensures if Parse(d).info.fat == 1 then d[..4] == [0xca, 0xfe, 0xba, 0xbe] || d[..4] == [0xbe, 0xba, 0xfe, 0xca]
            else d[..4] == [0xcf, 0xfa, 0xed, 0xfe] || d[..4] == [0xfe, 0xed, 0xfa, 0xcf]
  {
    WordBytes(d[0], d[1], d[2], d[3]);
  }

  /** A word determines its bytes. */
  lemma {:induction false} WordBytes(b0: byte, b1: byte, b2: byte, b3: byte)
    ensures Word(b0, b1, b2, b3) == 0xfeed_facf ==> b0 == 0xcf && b1 == 0xfa && b2 == 0xed && b3 == 0xfe
    ensures Word(b0, b1, b2, b3) == 0xcffa_edfe ==> b0 == 0xfe && b1 == 0xed && b2 == 0xfa && b3 == 0xcf
    ensures Word(b0, b1, b2, b3) == 0xcafe_babe ==> b0 == 0xbe && b1 == 0xba && b2 == 0xfe && b3 == 0xca
    ensures Word(b0, b1, b2, b3) == 0xbeba_feca ==> b0 == 0xca && b1 == 0xfe && b2 == 0xba && b3 == 0xbe
  {}

  /** A uint32_t stored in an int keeps its value modulo 2^32, as the two's complement int it is. */
  lemma {:induction false} AsIntExact(w: word, n: int)
    ensures AsInt(w) == n <==> -0x8000_0000 <= n < 0x8000_0000 && n % 0x1_0000_0000 == w
  {}
}
