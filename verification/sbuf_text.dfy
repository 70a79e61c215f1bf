/**
 What an sbuf means: a byte sequence with a size and flags, and what each
 operation of lib/libkern-bsd/sbuf.c does to it.  The class in sbuf.dfy is
 proved against these functions; the theorems about whole runs are here.

 Allocation may fail: every operation that can allocate carries the oracle
 `mem`, which says whether its allocation would succeed.
 */
module SbufText {
  import opened CTypes
  import opened SbufSize

  datatype Text = Text(
    content: seq<byte>,
    size: nat,
    autoextend: bool,
    dynamic: bool,
    dynstruct: bool,
    finished: bool,
    overflowed: bool)

  /** vsnprintf's answer: the whole formatted text, or an encoding error. */
  datatype Formatted = Bytes(text: seq<byte>) | FormatError

  datatype Operation =
    | Bcat(data: seq<byte>, mem: bool)
    | Bcpy(data: seq<byte>, mem: bool)
    | Cat(str: seq<byte>, mem: bool)
    | Cpy(str: seq<byte>, mem: bool)
    | Putc(c: int, mem: bool)
    | Printf(out: Formatted, mem: bool)
    | Trim
    | SetPos(pos: int)
    | Clear
    | Finish

  type Op = op: Operation | LegalOp(op) witness Trim

  /** One byte is always kept for the NUL, and sizes are ints. */
  predicate WellFormed(a: Text) {
    |a.content| < a.size <= INT_MAX
  }

  /** What C demands of the arguments: lengths are size_t, strings hold a NUL, vsnprintf returns an int. */
  predicate LegalOp(op: Operation) {
    match op
    case Bcat(data, _) => |data| < SIZE_LIMIT
    case Bcpy(data, _) => |data| < SIZE_LIMIT
    case Cat(str, _) => 0 in str && |str| < SIZE_LIMIT
    case Cpy(str, _) => 0 in str && |str| < SIZE_LIMIT
    case Printf(out, _) => out.Bytes? ==> |out.text| <= INT_MAX
    case _ => true
  }

  /** The bytes of a C string up to its first NUL. */
  function CString(str: seq<byte>): (r: seq<byte>)
    requires 0 in str
    ensures |r| < |str| && r == str[..|r|] && str[|r|] == 0 && 0 !in r
  {
    if str[0] == 0 then [] else [str[0]] + CString(str[1..])
  }

  predicate IsSpace(b: byte) {
    b == 32 || b == 10 || b == 9
  }

  function TrimEnd(s: seq<byte>): (r: seq<byte>)
    ensures r <= s
    ensures r == [] || !IsSpace(r[|r| - 1])
    ensures forall i :: |r| <= i < |s| ==> IsSpace(s[i])
  {
    if s != [] && IsSpace(s[|s| - 1]) then TrimEnd(s[..|s| - 1]) else s
  }

  // ----- the operations -----

  /** Whether room for `wanted` more bytes and the NUL can be had. */
  predicate Grants(shift: PageShift, a: Text, wanted: nat, mem: bool) {
    var need := |a.content| + wanted + 1;
    need <= a.size || (a.autoextend && mem && need <= MaxSize(shift))
  }

  /** The sbuf after that room has been made. */
  function WithRoom(shift: PageShift, a: Text, wanted: nat): Text {
    var need := |a.content| + wanted + 1;
    if need <= a.size then a else a.(size := Ceil(shift, need), dynamic := true)
  }

  /** sbuf_bcat: an overflowed sbuf refuses, and a refusal for lack of room overflows it. */
  function Append(shift: PageShift, a: Text, data: seq<byte>, mem: bool): (Text, bool) {
    if a.overflowed then (a, false)
    else if !Grants(shift, a, |data|, mem) then (a.(overflowed := true), false)
    else (WithRoom(shift, a, |data|).(content := a.content + data), true)
  }

  /** A printf that does not fit, and can be made to. */
  predicate TakesTwo(shift: PageShift, a: Text, text: seq<byte>, mem: bool) {
    && WellFormed(a) && !a.overflowed
    && |a.content| + |text| + 1 > a.size && Grants(shift, a, |text|, mem)
  }

  function Cleared(a: Text): Text {
    a.(content := [], finished := false, overflowed := false)
  }

  /** The char that sbuf_putc's int argument is converted to, as a byte. */
  function CharOf(c: int): byte {
    c % 256
  }

  /** A NUL is not appended, but room for it is demanded. */
  function PutChar(shift: PageShift, a: Text, c: int, mem: bool): (Text, bool) {
    if CharOf(c) != 0 then Append(shift, a, [CharOf(c)], mem)
    else if a.overflowed then (a, false)
    else if !Grants(shift, a, 1, mem) then (a.(overflowed := true), false)
    else (WithRoom(shift, a, 1), true)
  }

  function Do(shift: PageShift, a: Text, op: Op): (Text, bool)
  {
    match op
    case Bcat(data, mem) => Append(shift, a, data, mem)
    case Bcpy(data, mem) => Append(shift, Cleared(a), data, mem)
    case Cat(str, mem) => Append(shift, a, CString(str), mem)
    case Cpy(str, mem) => Append(shift, Cleared(a), CString(str), mem)
    case Putc(c, mem) => PutChar(shift, a, c, mem)
    case Printf(out, mem) => if out.Bytes? then Append(shift, a, out.text, mem) else (a, false)
    case Trim => if a.overflowed then (a, false) else (a.(content := TrimEnd(a.content)), true)
    case SetPos(pos) => if 0 <= pos <= |a.content| then (a.(content := a.content[..pos]), true) else (a, false)
    case Clear => (Cleared(a), true)
    case Finish => (a.(overflowed := false, finished := true), true)
  }

  function Run(shift: PageShift, a: Text, ops: seq<Op>): Text
  {
    if ops == [] then a
    else Do(shift, Run(shift, a, ops[..|ops| - 1]), ops[|ops| - 1]).0
  }

  lemma {:induction false} AppendWellFormed(shift: PageShift, a: Text, data: seq<byte>, mem: bool)
    requires WellFormed(a)
    ensures var r := Append(shift, a, data, mem).0;
      WellFormed(r) && r.size >= a.size && r.autoextend == a.autoextend && r.dynstruct == a.dynstruct
  {
    RoomIsEnough(shift, a, |data|);
  }

  lemma {:induction false} DoWellFormed(shift: PageShift, a: Text, op: Op)
    requires WellFormed(a)
    ensures var r := Do(shift, a, op).0;
      WellFormed(r) && r.size >= a.size && r.autoextend == a.autoextend && r.dynstruct == a.dynstruct
  {
    match op
    case Bcat(data, mem) => AppendWellFormed(shift, a, data, mem);
    case Bcpy(data, mem) => AppendWellFormed(shift, Cleared(a), data, mem);
    case Cat(str, mem) => AppendWellFormed(shift, a, CString(str), mem);
    case Cpy(str, mem) => AppendWellFormed(shift, Cleared(a), CString(str), mem);
    case Putc(c, mem) => AppendWellFormed(shift, a, [CharOf(c)], mem); RoomIsEnough(shift, a, 1);
    case Printf(out, mem) => if out.Bytes? { AppendWellFormed(shift, a, out.text, mem); }
    case _ =>
  }

  // ----- size is path-independent -----

  /** How much room an operation asks for, if it asks. */
  datatype Request = Some(wanted: nat) | NoRequest

  function RequestOf(a: Text, op: Op): Request
  {
    match op
    case Bcat(data, _) => Some(|data|)
    case Bcpy(data, _) => Some(|data|)
    case Cat(str, _) => Some(|CString(str)|)
    case Cpy(str, _) => Some(|CString(str)|)
    case Putc(_, _) => Some(1)
    case Printf(out, _) => if out.Bytes? then Some(|out.text|) else NoRequest
    case _ => NoRequest
  }

  /** The sbuf the request is made on: copying operations clear first. */
  function Base(a: Text, op: Op): Text {
    if op.Bcpy? || op.Cpy? then Cleared(a) else a
  }

  lemma {:induction false} RoomIsEnough(shift: PageShift, a: Text, wanted: nat)
    ensures WithRoom(shift, a, wanted).size >= |a.content| + wanted + 1
    ensures WithRoom(shift, a, wanted).size >= a.size
    ensures a.size <= INT_MAX && Grants(shift, a, wanted, true) ==> WithRoom(shift, a, wanted).size <= INT_MAX
  {
    var i := CeilIsLeast(shift, |a.content| + wanted + 1);
    CeilFits(shift, |a.content| + wanted + 1);
  }

  /** Its second pass has room, and completes the append. */
  lemma {:induction false} SecondPassFits(shift: PageShift, a: Text, text: seq<byte>, mem: bool)
    requires TakesTwo(shift, a, text, mem)
    ensures
      var grown := WithRoom(shift, a, |text|);
      && grown.content == a.content && |a.content| + |text| + 1 <= grown.size && grown.size > a.size
      && Append(shift, a, text, mem) == (grown.(content := a.content + text), true)
  {
    RoomIsEnough(shift, a, |text|);
  }

  /** The largest `s_len + wanted` that has been granted in the run. */
  function Peak(shift: PageShift, a: Text, ops: seq<Op>): nat
  {
    if ops == [] then 0
    else
      var before := Run(shift, a, ops[..|ops| - 1]);
      var op := ops[|ops| - 1];
      var p := Peak(shift, a, ops[..|ops| - 1]);
      var g := Granted(shift, before, op);
      if g > p then g else p
  }

  /** What this operation is granted: the length it grows to, 0 if it asks for nothing or is refused. */
  function Granted(shift: PageShift, a: Text, op: Op): nat
  {
    if RequestOf(a, op).Some? && Do(shift, a, op).1 then |Base(a, op).content| + RequestOf(a, op).wanted else 0
  }

  /** The size as a function of the initial size and the peak demand alone. */
  function SizeFor(shift: PageShift, size0: nat, peak: nat): nat {
    if peak + 1 <= size0 then size0 else Ceil(shift, peak + 1)
  }

  lemma {:induction false} AppendSize(shift: PageShift, a: Text, data: seq<byte>, mem: bool)
    ensures
      var r := Append(shift, a, data, mem);
      var need := |a.content| + |data| + 1;
      r.0.size == if r.1 && need > a.size then Ceil(shift, need) else a.size
  {}

  lemma {:induction false} SizeAfter(shift: PageShift, a: Text, op: Op)
    requires WellFormed(a)
    ensures
      var g := Granted(shift, a, op);
      Do(shift, a, op).0.size == if g + 1 <= a.size then a.size else Ceil(shift, g + 1)
  {
    match op
    case Bcat(data, mem) => AppendSize(shift, a, data, mem);
    case Bcpy(data, mem) => AppendSize(shift, Cleared(a), data, mem);
    case Cat(str, mem) => AppendSize(shift, a, CString(str), mem);
    case Cpy(str, mem) => AppendSize(shift, Cleared(a), CString(str), mem);
    case Putc(c, mem) => AppendSize(shift, a, [CharOf(c)], mem);
    case Printf(out, mem) => if out.Bytes? { AppendSize(shift, a, out.text, mem); }
    case _ =>
  }

  lemma {:induction false} SizeForJoin(shift: PageShift, size0: nat, p: nat, g: nat)
    requires size0 > 0
    ensures
      var size := SizeFor(shift, size0, p);
      (if g + 1 <= size then size else Ceil(shift, g + 1)) == SizeFor(shift, size0, if g > p then g else p)
  {
    var i := CeilIsLeast(shift, p + 1);
    if p < g && g + 1 <= Ceil(shift, p + 1) {
      CeilStable(shift, p + 1, g + 1);
    }
  }

  /**
   Over any run, with failed operations, failed allocations, truncations and
   clears anywhere in it, the size depends only on the initial size and on the
   largest demand that was granted.
   */
  lemma {:induction false} SizeIsPathIndependent(shift: PageShift, a: Text, ops: seq<Op>)
    requires WellFormed(a)
    ensures WellFormed(Run(shift, a, ops))
    ensures Run(shift, a, ops).size == SizeFor(shift, a.size, Peak(shift, a, ops))
  {
    if ops != [] {
      var before, op := ops[..|ops| - 1], ops[|ops| - 1];
      SizeIsPathIndependent(shift, a, before);
      DoWellFormed(shift, Run(shift, a, before), op);
      SizeAfter(shift, Run(shift, a, before), op);
      SizeForJoin(shift, a.size, Peak(shift, a, before), Granted(shift, Run(shift, a, before), op));
    }
  }

  // ----- appending in pieces -----

  /** An append of bytes: sbuf_bcat, sbuf_cat, sbuf_printf, or sbuf_putc of a char that is not NUL. */
  predicate IsPiece(op: Op) {
    op.Bcat? || op.Cat? || (op.Printf? && op.out.Bytes?) || (op.Putc? && CharOf(op.c) != 0)
  }

  /** The bytes that it appends. */
  function Piece(op: Op): seq<byte>
    requires IsPiece(op)
  {
    match op
    case Bcat(data, _) => data
    case Cat(str, _) => CString(str)
    case Printf(out, _) => out.text
    case Putc(c, _) => [CharOf(c)]
  }

  function Concat(ops: seq<Op>): seq<byte>
    requires forall op :: op in ops ==> IsPiece(op)
  {
    if ops == [] then [] else Concat(ops[..|ops| - 1]) + Piece(ops[|ops| - 1])
  }

  /** Every operation of the run succeeds. */
  predicate AllAccepted(shift: PageShift, a: Text, ops: seq<Op>) {
    ops == [] ||
    (AllAccepted(shift, a, ops[..|ops| - 1]) && Do(shift, Run(shift, a, ops[..|ops| - 1]), ops[|ops| - 1]).1)
  }

  /** With memory to be had, appending x and then y is appending both; without, it is no more. */
  lemma {:induction false} AppendTwice(shift: PageShift, a: Text, x: seq<byte>, y: seq<byte>, mem: bool)
    requires WellFormed(a)
    ensures
      var one := Append(shift, a, x + y, true);
      var first := Append(shift, a, x, true);
      var second := Append(shift, first.0, y, mem);
      && (first.1 && second.1 ==> one == second)
      && (one.1 && mem ==> first.1 && second.1)
  {
    var needX, needXY := |a.content| + |x| + 1, |a.content| + |x + y| + 1;
    assert a.content + (x + y) == (a.content + x) + y;
    CeilFits(shift, needX);
    var i := CeilIsLeast(shift, needX);
    if needXY <= Ceil(shift, needX) {
      CeilStable(shift, needX, needXY);
    }
  }

  /**
   Splitting the same bytes over any mix of bcat, cat, printf and putc gives the
   same content, size and flags: if the pieces all succeed, so does one append
   of all the bytes, and to the same effect; and if no allocation fails the
   pieces succeed exactly when that append does.
   */
  lemma {:induction false} SplitAppend(shift: PageShift, a: Text, ops: seq<Op>)
    requires WellFormed(a)
    requires forall op :: op in ops ==> IsPiece(op)
    ensures
      var whole := Append(shift, a, Concat(ops), true);
      && (!a.overflowed && AllAccepted(shift, a, ops) ==> whole == (Run(shift, a, ops), true))
      && (whole.1 && (forall op :: op in ops ==> op.mem) ==> AllAccepted(shift, a, ops))
  {
    if ops == [] {
      assert a.content + [] == a.content;
    } else {
      var before, last := ops[..|ops| - 1], ops[|ops| - 1];
      assert last in ops;
      SplitAppend(shift, a, before);
      AppendTwice(shift, a, Concat(before), Piece(last), last.mem);
    }
  }

  // ----- single characters, copies, cuts and whitespace -----

  /**
   sbuf_putc takes an int and appends the char it converts to: whatever the
   int's higher bits, its low byte, as sbuf_bcat would.  A NUL is not appended,
   but succeeds, fails and makes room as any other byte would.
   */
  lemma {:induction false} PutcAppendsLowByte(shift: PageShift, a: Text, b: byte, k: int, other: byte, mem: bool)
    requires other != 0
    ensures b != 0 ==> Do(shift, a, Putc(b + 256 * k, mem)) == Do(shift, a, Bcat([b], mem))
    ensures
      var (room, ok) := Do(shift, a, Bcat([other], mem));
      Do(shift, a, Putc(256 * k, mem)) == (room.(content := a.content), ok)
  {
    assert CharOf(256 * k) == 0;
    assert CharOf(other) == other;
    assert CharOf(b + 256 * k) == b;
  }

  /** The copies are a clear followed by an append; a clear leaves nothing but size and kind, as in a new sbuf. */
  lemma {:induction false} CopiesAreClearAndAppend(shift: PageShift, a: Text,
                                                   data: seq<byte>, str: seq<byte>, mem: bool)
    requires |data| < SIZE_LIMIT && 0 in str && |str| < SIZE_LIMIT
    ensures
      var (clear, ok) := Do(shift, a, Clear);
      && ok && clear == Text([], a.size, a.autoextend, a.dynamic, a.dynstruct, false, false)
      && Do(shift, a, Bcpy(data, mem)) == Do(shift, clear, Bcat(data, mem))
      && Do(shift, a, Cpy(str, mem)) == Do(shift, clear, Cat(str, mem))
  {}

  /** Setting the position undoes an append, byte by byte; a position outside the text is refused. */
  lemma {:induction false} SetPosUndoesAppend(shift: PageShift, a: Text, data: seq<byte>, n: nat, mem: bool)
    requires |data| < SIZE_LIMIT && n <= |data| && Do(shift, a, Bcat(data, mem)).1
    ensures
      var long := Do(shift, a, Bcat(data, mem)).0;
      && Do(shift, long, SetPos(|a.content| + n)) == (long.(content := a.content + data[..n]), true)
      && (forall pos: int :: pos < 0 || pos > |a.content| + |data| ==> Do(shift, long, SetPos(pos)) == (long, false))
  {
    assert (a.content + data)[..|a.content| + n] == a.content + data[..n];
  }

  lemma {:induction false} TrimEndDropsSpace(text: seq<byte>, space: seq<byte>)
    requires forall i :: 0 <= i < |space| ==> space[i] == 32 || space[i] == 10 || space[i] == 9
    requires text != [] ==> text[|text| - 1] != 32 && text[|text| - 1] != 10 && text[|text| - 1] != 9
    ensures TrimEnd(text + space) == text
  {
    if space == [] {
      assert text + space == text;
    } else {
      TrimEndDropsSpace(text, space[..|space| - 1]);
      assert (text + space)[..|text + space| - 1] == text + space[..|space| - 1];
    }
  }

  /**
   sbuf_trim undoes the appending of any spaces, newlines and tabs (32, 10 and
   9) to a text that does not end in one; on an overflowed sbuf it fails and
   does nothing.
   */
  lemma {:induction false} TrimUndoesSpace(shift: PageShift, a: Text, space: seq<byte>)
    requires forall i :: 0 <= i < |space| ==> space[i] == 32 || space[i] == 10 || space[i] == 9
    requires a.content != [] ==>
      var last := a.content[|a.content| - 1]; last != 32 && last != 10 && last != 9
    ensures
      var padded := a.(content := a.content + space);
      Do(shift, padded, Trim) == if a.overflowed then (padded, false) else (a, true)
  {
    TrimEndDropsSpace(a.content, space);
  }

  // ----- how often the buffer is reallocated -----

  /** The operations of a run that replaced the buffer. */
  function Reallocations(shift: PageShift, a: Text, ops: seq<Op>): nat
  {
    if ops == [] then 0
    else
      var before := ops[..|ops| - 1];
      Reallocations(shift, a, before)
      + if Run(shift, a, ops).size != Run(shift, a, before).size then 1 else 0
  }

  lemma {:induction false} ClimbsOneRung(shift: PageShift, j: nat, need: nat) returns (k: nat)
    requires need > Rung(shift, j)
    ensures Ceil(shift, need) == Rung(shift, k) > Rung(shift, j) && k > j
  {
    k := CeilIsLeast(shift, need);
    if k < j {
      RungGrows(shift, k, j);
    }
  }

  lemma {:induction false} ClimbStep(shift: PageShift, a: Text, op: Op, j: nat) returns (k: nat)
    requires WellFormed(a) && a.size == Rung(shift, j)
    ensures var r := Do(shift, a, op).0;
      WellFormed(r) && r.size == Rung(shift, k) && k >= j + if r.size != a.size then 1 else 0
  {
    DoWellFormed(shift, a, op);
    SizeAfter(shift, a, op);
    k := j;
    if Granted(shift, a, op) + 1 > a.size {
      k := ClimbsOneRung(shift, j, Granted(shift, a, op) + 1);
    }
  }

  /** Every reallocation climbs at least one rung. */
  lemma {:induction false} ClimbsTheLadder(shift: PageShift, a: Text, ops: seq<Op>, i: nat) returns (j: nat)
    requires WellFormed(a) && a.size == Rung(shift, i)
    ensures Run(shift, a, ops).size == Rung(shift, j) && WellFormed(Run(shift, a, ops))
    ensures j >= i + Reallocations(shift, a, ops)
  {
    j := i;
    if ops != [] {
      var before, op := ops[..|ops| - 1], ops[|ops| - 1];
      j := ClimbsTheLadder(shift, a, before, i);
      j := ClimbStep(shift, Run(shift, a, before), op, j);
    }
  }

  /** A heap sbuf with AUTOEXTEND that has reached a page or more: log2(PAGE_SIZE / 16) + size / PAGE_SIZE - 1. */
  lemma {:induction false} ReallocationBound(shift: PageShift, a: Text, ops: seq<Op>, length: nat)
    requires WellFormed(a) && a.size == Ceil(shift, length)
    requires Run(shift, a, ops).size >= PageSize(shift)
    ensures Reallocations(shift, a, ops) <= (shift - 4) + Run(shift, a, ops).size / PageSize(shift) - 1
  {
    var i := CeilIsLeast(shift, length);
    var j := ClimbsTheLadder(shift, a, ops, i);
    RungOfPages(shift, j);
    RungInPages(shift, j);
  }

  // ----- failure and overflow -----

  predicate Appends(op: Op) {
    op.Bcat? || op.Cat? || op.Putc? || op.Printf?
  }

  /** clear, finish, bcpy and cpy are the operations that reset the overflow flag. */
  predicate Resets(op: Op) {
    op.Clear? || op.Finish? || op.Bcpy? || op.Cpy?
  }

  /** A failed append changes nothing but the overflow flag, and a formatting error not even that. */
  lemma {:induction false} FailedAppend(shift: PageShift, a: Text, op: Op)
    requires Appends(op) && !Do(shift, a, op).1
    ensures Do(shift, a, op).0 == if op.Printf? && op.out.FormatError? then a else a.(overflowed := true)
  {}

  /** Once overflowed, every append fails until an operation resets the flag, and the text can only be cut by setpos. */
  lemma {:induction false} OverflowSticks(shift: PageShift, a: Text, ops: seq<Op>, next: Op)
    requires a.overflowed && Appends(next)
    requires forall op :: op in ops ==> !Resets(op)
    ensures Run(shift, a, ops).overflowed
    ensures Run(shift, a, ops).content <= a.content && Run(shift, a, ops).size == a.size
    ensures !Do(shift, Run(shift, a, ops), next).1
  {
    if ops != [] {
      var before, op := ops[..|ops| - 1], ops[|ops| - 1];
      assert op in ops;
      OverflowSticks(shift, a, before, next);
    }
  }

  // ----- what the buffer holds past the text -----

  /** What the buffer holds at an offset, as far as its former contents and the operations decide it. */
  datatype Cell = Byte(value: byte) | Unknown

  function Cells(bytes: seq<byte>): seq<Cell> {
    seq(|bytes|, i requires 0 <= i < |bytes| => Byte(bytes[i]))
  }

  /** The bytes are the ones predicted, as far as they are. */
  ghost predicate Shows(cells: seq<Cell>, bytes: seq<byte>) {
    && |cells| == |bytes|
    && forall i :: 0 <= i < |cells| ==> (cells[i].Byte? ==> cells[i].value == bytes[i])
  }

  function CellAt(cells: seq<Cell>, i: nat): Cell {
    if i < |cells| then cells[i] else Unknown
  }

  /**
   What an operation leaves at offset i of the buffer.  Only finish and printf
   write past the text: a printf that does not fit leaves as much of the
   formatted text as there is room for, and a NUL in the last byte.
   */
  function CellAfter(shift: PageShift, a: Text, cells: seq<Cell>, op: Op, i: nat): Cell {
    var (r, ok) := Do(shift, a, op);
    match op
    case Finish => if i == |a.content| then Byte(0) else CellAt(cells, i)
    case Printf(out, mem) =>
      if a.overflowed || i < |a.content| then CellAt(cells, i)
      else if out.FormatError? then Unknown
      else if !ok then Byte(if i + 1 < a.size && i - |a.content| < |out.text| then out.text[i - |a.content|] else 0)
      else if i < |r.content| then Byte(r.content[i])
      else if i == |r.content| then Byte(0)
      else CellAt(cells, i)
    case _ => if i < |r.content| then Byte(r.content[i]) else CellAt(cells, i)
  }

  function CellsAfter(shift: PageShift, a: Text, cells: seq<Cell>, op: Op): (r: seq<Cell>)
    ensures |r| == Do(shift, a, op).0.size
    ensures forall i :: 0 <= i < |r| ==> r[i] == CellAfter(shift, a, cells, op, i)
  {
    seq(Do(shift, a, op).0.size, i requires 0 <= i => CellAfter(shift, a, cells, op, i))
  }

  function CellsRun(shift: PageShift, a: Text, cells: seq<Cell>, ops: seq<Op>): seq<Cell> {
    if ops == [] then cells
    else
      var before := ops[..|ops| - 1];
      CellsAfter(shift, Run(shift, a, before), CellsRun(shift, a, cells, before), ops[|ops| - 1])
  }

  /**
   The prediction is right for an operation that writes only text: `was` and
   `now` are the buffer before and afterwards.
   */
  lemma {:induction false} ShowsText(shift: PageShift, a: Text, was: seq<byte>, now: seq<byte>, op: Op)
    requires !op.Finish? && !op.Printf?
    requires
      var r := Do(shift, a, op).0;
      && |r.content| < |now| == r.size && now[..|r.content|] == r.content && |was| <= |now|
      && forall i :: |r.content| <= i < |was| ==> now[i] == was[i]
    ensures Shows(CellsAfter(shift, a, Cells(was), op), now)
  {
    forall i | 0 <= i < |now| && CellsAfter(shift, a, Cells(was), op)[i].Byte?
      ensures CellsAfter(shift, a, Cells(was), op)[i].value == now[i]
    {
      assert i < |Do(shift, a, op).0.content| ==> now[..|Do(shift, a, op).0.content|][i] == now[i];
    }
  }

  lemma {:induction false} ShowsFinish(shift: PageShift, a: Text, was: seq<byte>, now: seq<byte>, op: Op)
    requires op.Finish? && |a.content| < |was| == a.size && now == was[|a.content| := 0]
    ensures Shows(CellsAfter(shift, a, Cells(was), op), now)
  {
    forall i | 0 <= i < |now| ensures CellsAfter(shift, a, Cells(was), op)[i] == Byte(now[i]) {}
  }

  lemma {:induction false} ShowsPrintf(shift: PageShift, a: Text, was: seq<byte>, now: seq<byte>, op: Op)
    requires op.Printf? && |a.content| < |was| == a.size && was[..|a.content|] == a.content
    requires
      var (r, ok) := Do(shift, a, op);
      && |r.content| < |now| == r.size && now[..|r.content|] == r.content && |was| <= |now|
      && (a.overflowed ==> forall i :: |a.content| <= i < |was| ==> now[i] == was[i])
      && (ok ==> now[|r.content|] == 0 && forall i :: |r.content| < i < |was| ==> now[i] == was[i])
      && (op.out.Bytes? && !ok && !a.overflowed ==>
            forall i :: |a.content| <= i < |now| ==>
              now[i] == if i + 1 < |now| && i - |a.content| < |op.out.text| then op.out.text[i - |a.content|] else 0)
    ensures Shows(CellsAfter(shift, a, Cells(was), op), now)
  {
    var r := Do(shift, a, op).0;
    forall i | 0 <= i < |now| && CellsAfter(shift, a, Cells(was), op)[i].Byte?
      ensures CellsAfter(shift, a, Cells(was), op)[i].value == now[i]
    {
      assert i < |a.content| ==> was[..|a.content|][i] == was[i];
      assert i < |r.content| ==> now[..|r.content|][i] == now[i];
    }
  }

  /** A prediction made knowing less predicts no more. */
  lemma {:induction false} CellsShow(shift: PageShift, a: Text, cells: seq<Cell>, op: Op,
                                     was: seq<byte>, now: seq<byte>)
    requires Shows(cells, was) && Shows(CellsAfter(shift, a, Cells(was), op), now)
    ensures Shows(CellsAfter(shift, a, cells, op), now)
  {
    forall i | 0 <= i < |now| && CellsAfter(shift, a, cells, op)[i].Byte?
      ensures CellsAfter(shift, a, cells, op)[i].value == now[i]
    {
      assert CellsAfter(shift, a, Cells(was), op)[i] == CellsAfter(shift, a, cells, op)[i];
    }
  }

  /** The run, its buffer and its reallocations, one operation further. */
  lemma {:induction false} OneMore(shift: PageShift, a: Text, cells: seq<Cell>, ops: seq<Op>, i: nat,
                                   was: seq<byte>, now: seq<byte>)
    requires i < |ops|
    requires Shows(CellsRun(shift, a, cells, ops[..i]), was)
    requires Shows(CellsAfter(shift, Run(shift, a, ops[..i]), Cells(was), ops[i]), now)
    ensures Run(shift, a, ops[..i + 1]) == Do(shift, Run(shift, a, ops[..i]), ops[i]).0
    ensures Shows(CellsRun(shift, a, cells, ops[..i + 1]), now)
    ensures Reallocations(shift, a, ops[..i + 1])
         == Reallocations(shift, a, ops[..i])
            + if Run(shift, a, ops[..i + 1]).size != Run(shift, a, ops[..i]).size then 1 else 0
  {
    assert ops[..i + 1][..i] == ops[..i];
    CellsShow(shift, Run(shift, a, ops[..i]), CellsRun(shift, a, cells, ops[..i]), ops[i], was, now);
  }

  // ----- when the text is NUL-terminated -----

  /** The buffer is known to hold a NUL there. */
  predicate NulAt(cells: seq<Cell>, i: nat) {
    i < |cells| && cells[i] == Byte(0)
  }

  /** Where the text ends after an operation that writes nothing past it. */
  function EndAfter(shift: PageShift, a: Text, op: Op): nat {
    var len := |a.content|;
    match op
    case Bcat(data, mem) => if !a.overflowed && Grants(shift, a, |data|, mem) then len + |data| else len
    case Cat(str, mem) => if !a.overflowed && Grants(shift, a, |CString(str)|, mem) then len + |CString(str)| else len
    case Putc(c, mem) => if !a.overflowed && Grants(shift, a, 1, mem) && CharOf(c) != 0 then len + 1 else len
    case Bcpy(data, mem) => if Grants(shift, Cleared(a), |data|, mem) then |data| else 0
    case Cpy(str, mem) => if Grants(shift, Cleared(a), |CString(str)|, mem) then |CString(str)| else 0
    case SetPos(pos) => if 0 <= pos < len then pos else len
    case Trim => if a.overflowed then len else |TrimEnd(a.content)|
    case Clear => 0
    case Finish | Printf(_, _) => len
  }

  /**
   When an operation on a NUL-terminated sbuf leaves it terminated, in terms a
   caller can check beforehand: finish and an accepted printf always do, a
   refused printf if it has no room for its first byte or that byte is NUL, and
   the others if the buffer already holds a NUL where the text is going to end.
   */
  predicate KeepsNul(shift: PageShift, a: Text, cells: seq<Cell>, op: Op) {
    match op
    case Finish => true
    case Printf(out, mem) =>
      || a.overflowed
      || (out.Bytes? && (Grants(shift, a, |out.text|, mem) || |a.content| + 1 == a.size || (out.text + [0])[0] == 0))
    case _ => NulAt(cells, EndAfter(shift, a, op))
  }

  /** The buffer starts with the text, and is of its size. */
  predicate Holds(a: Text, cells: seq<Cell>) {
    && WellFormed(a) && |cells| == a.size
    && forall i :: 0 <= i < |a.content| ==> cells[i] == Byte(a.content[i])
  }

  lemma {:induction false} HoldsAfter(shift: PageShift, a: Text, cells: seq<Cell>, op: Op)
    requires Holds(a, cells)
    ensures Holds(Do(shift, a, op).0, CellsAfter(shift, a, cells, op))
  {
    DoWellFormed(shift, a, op);
  }

  lemma {:induction false} PrintfKeepsNul(shift: PageShift, a: Text, cells: seq<Cell>, op: Op)
    requires Holds(a, cells) && NulAt(cells, |a.content|) && op.Printf?
    ensures NulAt(CellsAfter(shift, a, cells, op), |Do(shift, a, op).0.content|) <==> KeepsNul(shift, a, cells, op)
  {
    DoWellFormed(shift, a, op);
  }

  lemma {:induction false} EndIsAfter(shift: PageShift, a: Text, op: Op)
    requires !op.Printf?
    ensures |Do(shift, a, op).0.content| == EndAfter(shift, a, op)
  {}

  /** The condition is exact: otherwise the byte after the text is not NUL, or is not decided. */
  lemma {:induction false} NulKept(shift: PageShift, a: Text, cells: seq<Cell>, op: Op)
    requires Holds(a, cells) && NulAt(cells, |a.content|)
    ensures NulAt(CellsAfter(shift, a, cells, op), |Do(shift, a, op).0.content|) <==> KeepsNul(shift, a, cells, op)
  {
    if op.Printf? {
      PrintfKeepsNul(shift, a, cells, op);
    } else {
      DoWellFormed(shift, a, op);
      EndIsAfter(shift, a, op);
    }
  }

  /** Every operation of the run keeps a NUL that is there. */
  predicate AllKeepNul(shift: PageShift, a: Text, cells: seq<Cell>, ops: seq<Op>) {
    ops == [] ||
    var before := ops[..|ops| - 1];
    && AllKeepNul(shift, a, cells, before)
    && KeepsNul(shift, Run(shift, a, before), CellsRun(shift, a, cells, before), ops[|ops| - 1])
  }

  /** The text is known to be followed by a NUL after a run. */
  predicate Terminated(shift: PageShift, a: Text, cells: seq<Cell>, ops: seq<Op>) {
    NulAt(CellsRun(shift, a, cells, ops), |Run(shift, a, ops).content|)
  }

  /** The same in every state of the run. */
  predicate TerminatedThroughout(shift: PageShift, a: Text, cells: seq<Cell>, ops: seq<Op>) {
    Terminated(shift, a, cells, ops) && (ops == [] || TerminatedThroughout(shift, a, cells, ops[..|ops| - 1]))
  }

  lemma {:induction false} HoldsRun(shift: PageShift, a: Text, cells: seq<Cell>, ops: seq<Op>)
    requires Holds(a, cells)
    ensures Holds(Run(shift, a, ops), CellsRun(shift, a, cells, ops))
  {
    if ops != [] {
      var before := ops[..|ops| - 1];
      HoldsRun(shift, a, cells, before);
      HoldsAfter(shift, Run(shift, a, before), CellsRun(shift, a, cells, before), ops[|ops| - 1]);
    }
  }

  /** A terminated sbuf, as finish leaves it, stays so throughout a run if and only if every operation keeps the NUL. */
  lemma {:induction false} TerminatedExactly(shift: PageShift, a: Text, cells: seq<Cell>, ops: seq<Op>)
    requires Holds(a, cells) && NulAt(cells, |a.content|)
    ensures TerminatedThroughout(shift, a, cells, ops) <==> AllKeepNul(shift, a, cells, ops)
  {
    if ops != [] {
      var before, op := ops[..|ops| - 1], ops[|ops| - 1];
      TerminatedExactly(shift, a, cells, before);
      if TerminatedThroughout(shift, a, cells, before) {
        assert Terminated(shift, a, cells, before);
        HoldsRun(shift, a, cells, before);
        NulKept(shift, Run(shift, a, before), CellsRun(shift, a, cells, before), op);
      }
    }
  }

  predicate Known(cells: seq<Cell>) {
    forall i :: 0 <= i < |cells| ==> cells[i].Byte?
  }

  lemma {:induction false} NeverShrinks(shift: PageShift, a: Text, ops: seq<Op>)
    requires WellFormed(a)
    ensures WellFormed(Run(shift, a, ops)) && Run(shift, a, ops).size >= a.size
  {
    if ops != [] {
      NeverShrinks(shift, a, ops[..|ops| - 1]);
      DoWellFormed(shift, Run(shift, a, ops[..|ops| - 1]), ops[|ops| - 1]);
    }
  }

  /** Only new memory and formatting errors leave anything undecided. */
  lemma {:induction false} DecidedInPlace(shift: PageShift, a: Text, cells: seq<Cell>, ops: seq<Op>)
    requires Holds(a, cells) && Known(cells) && Run(shift, a, ops).size == a.size
    requires forall op :: op in ops ==> !(op.Printf? && op.out.FormatError?)
    ensures Known(CellsRun(shift, a, cells, ops))
  {
    if ops != [] {
      var before, op := ops[..|ops| - 1], ops[|ops| - 1];
      NeverShrinks(shift, a, before);
      DoWellFormed(shift, Run(shift, a, before), op);
      DecidedInPlace(shift, a, cells, before);
      HoldsRun(shift, a, cells, before);
      assert op in ops;
    }
  }

  /** Nothing but NULs past the text, as sbuf_new leaves a buffer of its own. */
  predicate ZeroTail(a: Text, cells: seq<Cell>) {
    Holds(a, cells) && forall i :: |a.content| <= i < |cells| ==> cells[i] == Byte(0)
  }

  /** In such a buffer accepted appends keep the text terminated without finish, until the buffer has to grow. */
  lemma {:induction false} AppendsStayTerminated(shift: PageShift, a: Text, cells: seq<Cell>, ops: seq<Op>)
    requires ZeroTail(a, cells) && Run(shift, a, ops).size == a.size
    requires AllAccepted(shift, a, ops) && forall op :: op in ops ==> IsPiece(op)
    ensures ZeroTail(Run(shift, a, ops), CellsRun(shift, a, cells, ops))
    ensures TerminatedThroughout(shift, a, cells, ops)
  {
    if ops != [] {
      var before, op := ops[..|ops| - 1], ops[|ops| - 1];
      assert op in ops;
      NeverShrinks(shift, a, before);
      DoWellFormed(shift, Run(shift, a, before), op);
      AppendsStayTerminated(shift, a, cells, before);
      ZeroTailKept(shift, Run(shift, a, before), CellsRun(shift, a, cells, before), op);
    }
  }

  lemma {:induction false} ZeroTailKept(shift: PageShift, a: Text, cells: seq<Cell>, op: Op)
    requires ZeroTail(a, cells) && IsPiece(op)
    requires Do(shift, a, op).1 && Do(shift, a, op).0.size == a.size
    ensures ZeroTail(Do(shift, a, op).0, CellsAfter(shift, a, cells, op))
  {
    HoldsAfter(shift, a, cells, op);
  }
}
