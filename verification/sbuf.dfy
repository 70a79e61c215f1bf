/**
 lib/libkern-bsd/sbuf.c over a real heap: the struct is a class, the backing
 buffer an array, and the allocator tracks what is live.  Every method is proved
 to do to `View()` what SbufText says, and to keep the heap balanced: the
 allocations of everybody else never change.

 A call of `Heap.Free` is only legal on a live allocation, so a verified caller
 frees nothing twice and never frees a buffer its caller supplied.
 */
module Sbufs {
  import opened CTypes
  import opened SbufSize
  import opened SbufText

  const USRFLAGMSK: bv32 := 0x0000_ffff
  const AUTOEXTEND: bv32 := 0x0000_0001

  /** sbuf_new accepts the sixteen user flags, and the lowest is SBUF_AUTOEXTEND. */
  lemma {:induction false} UserFlags(flags: bv32)
    ensures flags & !USRFLAGMSK == 0 <==> flags <= 0xffff
    ensures flags & AUTOEXTEND != 0 <==> flags % 2 == 1
  {}

  /** _MALLOC and _FREE. `live` are the allocations made and not yet freed. */
  class Heap {
    const shift: PageShift
    ghost var live: set<object>
    ghost var allocations: nat

    constructor (shift: PageShift)
      ensures this.shift == shift && live == {} && allocations == 0
    {
      this.shift := shift;
      live := {};
      allocations := 0;
    }

    /** kalloc_data: `mem` is the oracle that decides whether memory is to be had. */
    method AllocData(n: nat, zero: bool, mem: bool) returns (p: array?<byte>)
      modifies this
      ensures p != null <==> mem
      ensures p != null ==> fresh(p) && p.Length == n && (zero ==> forall i :: 0 <= i < n ==> p[i] == 0)
      ensures live == old(live) + (if p != null then {p as object} else {})
      ensures allocations == old(allocations) + if mem then 1 else 0
    {
      p := null;
      if mem {
        p := new byte[n](_ => 0);
        live := live + {p};
        allocations := allocations + 1;
      }
    }

    /** kalloc_type(struct sbuf, Z_ZERO) */
    method AllocStruct(mem: bool) returns (s: Sbuf?)
      modifies this
      ensures s != null <==> mem
      ensures s != null ==> fresh(s) && s.Zeroed()
      ensures live == old(live) + (if s != null then {s as object} else {})
    {
      s := null;
      if mem {
        s := new Sbuf();
        live := live + {s};
      }
    }

    ghost method Free(o: object)
      requires o in live
      modifies this
      ensures live == old(live) - {o} && allocations == old(allocations)
    {
      live := live - {o};
    }
  }

  /** How one round of sbuf_vprintf's loop ends. */
  datatype Attempted = Errored | Fitted | Refused | Retry

  class Sbuf {
    var buf: array?<byte>
    var size: int
    var len: int
    // s_flags, one field per flag
    var autoextend: bool
    var dynamic: bool
    var finished: bool
    var overflowed: bool
    var dynstruct: bool

    constructor ()
      ensures Zeroed()
    {
      buf, size, len := null, 0, 0;
      autoextend, dynamic, finished, overflowed, dynstruct := false, false, false, false, false;
    }

    predicate Zeroed()
      reads this
    {
      && buf == null && size == 0 && len == 0
      && !autoextend && !dynamic && !finished && !overflowed && !dynstruct
    }

    /** What sbuf.c itself allocated for this sbuf. */
    ghost function Owned(): set<object>
      reads this
    {
      (if dynamic && buf != null then {buf as object} else {}) + (if dynstruct then {this as object} else {})
    }

    ghost predicate Valid(h: Heap)
      reads this, h
    {
      && buf != null
      && 0 <= len < size <= INT_MAX
      && size <= buf.Length
      && (dynamic ==> buf.Length == size)
      && (buf in h.live <==> dynamic)
      && (this in h.live <==> dynstruct)
    }

    ghost function View(): Text
      requires buf != null && 0 <= len <= buf.Length && 0 <= size
      reads this, buf
    {
      Text(buf[..len], size, autoextend, dynamic, dynstruct, finished, overflowed)
    }

    /** Nothing past the text is written: what is there afterwards was there, unless it is new memory. */
    twostate predicate KeepsRest()
      requires buf != null && 0 <= len && size <= buf.Length
      requires old(buf != null && size <= buf.Length)
      reads this, buf
    {
      && old(size) <= size
      && (size == old(size) ==> buf == old(buf))
      && forall i :: len <= i < old(size) ==> buf[i] == old(buf[i])
    }

    /** Nothing past the NUL that follows the text is written. */
    twostate predicate KeepsBeyond()
      requires buf != null && 0 <= len && size <= buf.Length
      requires old(buf != null && size <= buf.Length)
      reads this, buf
    {
      old(size) <= size && forall i :: len < i < old(size) ==> buf[i] == old(buf[i])
    }

    /** The heap as everybody else sees it, and the struct itself, are as before. */
    twostate predicate Balanced(h: Heap)
      reads this, h
    {
      && h.live - Owned() == old(h.live - Owned())
      && dynstruct == old(dynstruct)
      && (buf == old(buf) || fresh(buf))
    }

    /** sbuf_capacity: an int converted to size_t, so a negative one wraps. */
    function Capacity(): int
      reads this
    {
      var c := size - len - 1;
      if c >= 0 then c else c + SIZE_LIMIT
    }

    /** sbuf_extend */
    method Extend(h: Heap, addlen: nat, mem: bool) returns (error: int)
      requires Valid(h) && addlen < SIZE_LIMIT
      modifies this, h
      ensures Valid(h) && Balanced(h)
      ensures error == 0 || error == -1
      ensures error == 0 <==> addlen == 0 || (old(autoextend) && mem && old(size) + addlen <= MaxSize(h.shift))
      ensures View() == if error == 0 && addlen > 0
                        then old(View()).(size := Ceil(h.shift, old(size) + addlen), dynamic := true)
                        else old(View())
      ensures if error == 0 && addlen > 0 then fresh(buf) && h.allocations == old(h.allocations) + 1
              else buf == old(buf) && h.allocations == old(h.allocations)
      ensures KeepsRest()
    {
      if addlen == 0 {
        return 0;
      }
      if !autoextend {
        return -1;
      }
      CeilFits(h.shift, size + addlen);
      if size + addlen >= SIZE_LIMIT {
        return -1;
      }
      var e, newSize := ExtendSize(h.shift, size + addlen);
      if e == -1 {
        return -1;
      }
      ghost var i := CeilIsLeast(h.shift, size + addlen);
      var newBuf := h.AllocData(newSize, false, mem);
      if newBuf == null {
        return -1;
      }
      forall i | 0 <= i < size {
        newBuf[i] := buf[i];
      }
      assert newBuf[..len] == old(buf[..len]);
      if dynamic {
        h.Free(buf);
      } else {
        dynamic := true;
      }
      buf := newBuf;
      size := newSize;
      return 0;
    }

    /** sbuf_ensure_capacity */
    method EnsureCapacity(h: Heap, wanted: nat, mem: bool) returns (error: int)
      requires Valid(h) && wanted < SIZE_LIMIT
      modifies this, h
      ensures Valid(h) && Balanced(h)
      ensures error == 0 || error == -1
      ensures error == 0 <==> Grants(h.shift, old(View()), wanted, mem)
      ensures View() == if error == 0 then WithRoom(h.shift, old(View()), wanted) else old(View())
      ensures h.allocations == old(h.allocations) + if size != old(size) then 1 else 0
      ensures if size == old(size) then buf == old(buf) else fresh(buf)
      ensures KeepsRest()
    {
      var capacity := Capacity();
      if capacity >= wanted {
        return 0;
      }
      ghost var i := CeilIsLeast(h.shift, len + wanted + 1);
      error := Extend(h, wanted - capacity, mem);
    }

    /** sbuf_bcat */
    method Bcat(h: Heap, data: seq<byte>, mem: bool) returns (error: int)
      requires Valid(h) && |data| < SIZE_LIMIT
      modifies this, buf, h
      ensures Valid(h) && Balanced(h)
      ensures error == 0 || error == -1
      ensures (View(), error == 0) == Append(h.shift, old(View()), data, mem)
      ensures h.allocations == old(h.allocations) + if size != old(size) then 1 else 0
      ensures KeepsRest()
    {
      if overflowed {
        return -1;
      }
      var e := EnsureCapacity(h, |data|, mem);
      if e == -1 {
        overflowed := true;
        return -1;
      }
      RoomIsEnough(h.shift, old(View()), |data|);
      ghost var text := buf[..len];
      forall i | 0 <= i < |data| {
        buf[len + i] := data[i];
      }
      assert buf[..len] == text;
      len := len + |data|;
      assert buf[..len] == text + data;
      return 0;
    }

    /** sbuf_clear, with the sbuf_setpos it ends in */
    method Clear(h: Heap)
      requires Valid(h)
      modifies this
      ensures Valid(h) && Balanced(h) && buf == old(buf)
      ensures View() == Cleared(old(View()))
    {
      finished := false;
      overflowed := false;
      var e := SetPos(h, 0);
      assert buf[..0] == [];
    }

    /** sbuf_setpos */
    method SetPos(h: Heap, pos: int) returns (error: int)
      requires Valid(h)
      modifies this`len
      ensures Valid(h) && Balanced(h)
      ensures error == 0 || error == -1
      ensures (View(), error == 0) == Do(h.shift, old(View()), SbufText.SetPos(pos))
    {
      if pos < 0 || pos > len {
        return -1;
      }
      assert buf[..pos] == buf[..len][..pos];
      len := pos;
      return 0;
    }

    /** sbuf_bcpy */
    method Bcpy(h: Heap, data: seq<byte>, mem: bool) returns (error: int)
      requires Valid(h) && |data| < SIZE_LIMIT
      modifies this, buf, h
      ensures Valid(h) && Balanced(h)
      ensures error == 0 || error == -1
      ensures (View(), error == 0) == Append(h.shift, Cleared(old(View())), data, mem)
      ensures h.allocations == old(h.allocations) + if size != old(size) then 1 else 0
      ensures KeepsRest()
    {
      Clear(h);
      error := Bcat(h, data, mem);
    }

    /** strlen */
    static method StrLen(str: seq<byte>) returns (n: nat)
      requires 0 in str
      ensures n < |str| && str[..n] == CString(str)
    {
      n := 0;
      ghost var k := |CString(str)|;
      while str[n] != 0
        invariant 0 <= n <= k
        invariant 0 !in str[..n]
        decreases k - n
      {
        assert str[..k][n] == str[n];
        n := n + 1;
      }
    }

    /** sbuf_cat */
    method Cat(h: Heap, str: seq<byte>, mem: bool) returns (error: int)
      requires Valid(h) && 0 in str && |str| < SIZE_LIMIT
      modifies this, buf, h
      ensures Valid(h) && Balanced(h)
      ensures error == 0 || error == -1
      ensures (View(), error == 0) == Append(h.shift, old(View()), CString(str), mem)
      ensures h.allocations == old(h.allocations) + if size != old(size) then 1 else 0
      ensures KeepsRest()
    {
      var n := StrLen(str);
      error := Bcat(h, str[..n], mem);
    }

    /** sbuf_cpy */
    method Cpy(h: Heap, str: seq<byte>, mem: bool) returns (error: int)
      requires Valid(h) && 0 in str && |str| < SIZE_LIMIT
      modifies this, buf, h
      ensures Valid(h) && Balanced(h)
      ensures error == 0 || error == -1
      ensures (View(), error == 0) == Append(h.shift, Cleared(old(View())), CString(str), mem)
      ensures h.allocations == old(h.allocations) + if size != old(size) then 1 else 0
      ensures KeepsRest()
    {
      Clear(h);
      error := Cat(h, str, mem);
    }

    /**
     vsnprintf: writes at most n bytes from offset on, the text cut to n - 1
     bytes and a NUL, and returns the length of the whole text.  After an
     encoding error the bytes it was given are unspecified.
     */
    static method Vsnprintf(dst: array<byte>, offset: nat, n: nat, out: Formatted) returns (result: int)
      requires n > 0 && offset + n <= dst.Length
      requires out.Bytes? ==> |out.text| <= INT_MAX
      modifies dst
      ensures forall i :: 0 <= i < dst.Length && !(offset <= i < offset + n) ==> dst[i] == old(dst[i])
      ensures out.FormatError? ==> result < 0
      ensures out.Bytes? ==> result == |out.text|
      ensures out.Bytes? && |out.text| < n ==>
        && dst[offset..offset + |out.text|] == out.text && dst[offset + |out.text|] == 0
        && forall i :: offset + |out.text| < i < offset + n ==> dst[i] == old(dst[i])
      ensures out.Bytes? && |out.text| >= n ==>
        && dst[offset + n - 1] == 0
        && forall i :: offset <= i < offset + n - 1 ==> dst[i] == out.text[i - offset]
    {
      if out.FormatError? {
        return -1;
      }
      var k := if |out.text| < n then |out.text| else n - 1;
      forall i | 0 <= i < k {
        dst[offset + i] := out.text[i];
      }
      dst[offset + k] := 0;
      return |out.text|;
    }

    /** As much of the formatted text as there is room for follows the text, and a NUL is in the last byte. */
    ghost predicate Cut(text: seq<byte>)
      requires buf != null && 0 <= len <= size <= buf.Length
      reads this, buf
    {
      forall i :: len <= i < size ==>
        buf[i] == if i + 1 < size && i - len < |text| then text[i - len] else 0
    }

    /** One pass of sbuf_vprintf's loop: format into the free space, and keep the text if it fits. */
    method FormatPass(h: Heap, out: Formatted) returns (result: int)
      requires Valid(h) && (out.Bytes? ==> |out.text| <= INT_MAX)
      modifies this`len, buf
      ensures Valid(h) && Balanced(h)
      ensures out.FormatError? ==> result < 0
      ensures out.Bytes? ==> result == |out.text|
      ensures
        var fits := out.Bytes? && |old(View()).content| + |out.text| + 1 <= size;
        && View() == (if fits then old(View()).(content := old(View()).content + out.text) else old(View()))
        && (fits ==> buf[len] == 0 && KeepsBeyond())
        && (out.Bytes? && !fits ==> Cut(out.text))
    {
      var capacity := Capacity();
      ghost var text := buf[..len];
      result := Vsnprintf(buf, len, capacity + 1, out);
      assert buf[..len] == text;
      if 0 <= result <= capacity {
        ghost var at := len;
        len := len + result;
        assert buf[..len] == buf[..at] + buf[at..len];
      }
    }

    /** The body of sbuf_vprintf's loop and its condition: a pass and, if need be, room for the next one. */
    method Attempt(h: Heap, out: Formatted, mem: bool) returns (outcome: Attempted)
      requires Valid(h) && !overflowed && (out.Bytes? ==> |out.text| <= INT_MAX)
      modifies this, buf, h
      ensures Valid(h) && Balanced(h)
      ensures outcome.Errored? <==> out.FormatError?
      ensures out.Bytes? ==> (outcome.Fitted? <==> |old(View()).content| + |out.text| + 1 <= old(size))
      ensures match outcome
        case Fitted =>
          View() == old(View()).(content := old(View()).content + out.text) && buf[len] == 0 && KeepsBeyond()
        case Retry =>
          TakesTwo(h.shift, old(View()), out.text, mem) && View() == WithRoom(h.shift, old(View()), |out.text|)
        case Refused => !Grants(h.shift, old(View()), |out.text|, mem) && View() == old(View()) && Cut(out.text)
        case Errored => View() == old(View())
      ensures if outcome.Retry? then size > old(size) && fresh(buf) && h.allocations == old(h.allocations) + 1
              else buf == old(buf) && h.allocations == old(h.allocations)
    {
      ghost var a := View();
      var capacity := Capacity();
      var result := FormatPass(h, out);
      if result < 0 {
        return Errored;
      }
      if result <= capacity {
        return Fitted;
      }
      var e := EnsureCapacity(h, result, mem);
      if e == -1 {
        return Refused;
      }
      SecondPassFits(h.shift, a, out.text, mem);
      return Retry;
    }

    /** sbuf_vprintf: at most two passes, and the effect of appending the formatted text. */
    method Vprintf(h: Heap, out: Formatted, mem: bool) returns (error: int, ghost passes: nat)
      requires Valid(h) && (out.Bytes? ==> |out.text| <= INT_MAX)
      modifies this, buf, h
      ensures Valid(h) && Balanced(h)
      ensures error == 0 || error == -1
      ensures out.Bytes? ==> (View(), error == 0) == Append(h.shift, old(View()), out.text, mem)
      ensures out.FormatError? ==> View() == old(View()) && error == -1
      ensures error == 0 ==> buf[len] == 0 && KeepsBeyond()
      ensures old(overflowed) ==> size == old(size) && KeepsRest()
      ensures out.Bytes? && error != 0 && !old(overflowed) ==> Cut(out.text)
      ensures passes <= 2
      ensures h.allocations == old(h.allocations) + if size != old(size) then 1 else 0
    {
      passes := 0;
      ghost var a := View();
      if overflowed {
        return -1, passes;
      }
      while true
        invariant Valid(h) && Balanced(h) && passes <= 1
        invariant passes == 0 ==> View() == a && buf == old(buf) && h.allocations == old(h.allocations) && KeepsRest()
        invariant passes == 1 ==>
          && out.Bytes? && TakesTwo(h.shift, a, out.text, mem) && View() == WithRoom(h.shift, a, |out.text|)
          && size > old(size) && fresh(buf) && h.allocations == old(h.allocations) + 1
        decreases 1 - passes
      {
        if passes == 1 {
          SecondPassFits(h.shift, a, out.text, mem);
        }
        var outcome := Attempt(h, out, mem);
        passes := passes + 1;
        match outcome {
          case Errored => return -1, passes;
          case Fitted =>
            assert len == |View().content| == |a.content| + |out.text|;
            return 0, passes;
          case Refused =>
            overflowed := true;
            return -1, passes;
          case Retry =>
        }
      }
    }

    /** sbuf_putc */
    method Putc(h: Heap, c: int, mem: bool) returns (error: int)
      requires Valid(h)
      modifies this, buf, h
      ensures Valid(h) && Balanced(h)
      ensures error == 0 || error == -1
      ensures (View(), error == 0) == PutChar(h.shift, old(View()), c, mem)
      ensures h.allocations == old(h.allocations) + if size != old(size) then 1 else 0
      ensures KeepsRest()
    {
      var ch := CharOf(c);
      if overflowed {
        return -1;
      }
      var e := EnsureCapacity(h, 1, mem);
      if e == -1 {
        overflowed := true;
        return -1;
      }
      RoomIsEnough(h.shift, old(View()), 1);
      if ch != 0 {
        ghost var text := buf[..len];
        buf[len] := ch;
        assert buf[..len] == text;
        len := len + 1;
        assert buf[..len] == text + [ch];
      }
      return 0;
    }

    /** sbuf_trim */
    method Trim(h: Heap) returns (error: int)
      requires Valid(h)
      modifies this`len
      ensures Valid(h) && Balanced(h)
      ensures error == 0 || error == -1
      ensures (View(), error == 0) == Do(h.shift, old(View()), SbufText.Trim)
    {
      if overflowed {
        return -1;
      }
      while len > 0 && IsSpace(buf[len - 1])
        invariant 0 <= len <= old(len)
        invariant TrimEnd(buf[..len]) == TrimEnd(old(buf[..len]))
      {
        assert buf[..len][..len - 1] == buf[..len - 1];
        len := len - 1;
      }
      return 0;
    }

    /** sbuf_finish */
    method Finish(h: Heap)
      requires Valid(h)
      modifies this, buf
      ensures Valid(h) && Balanced(h) && buf == old(buf)
      ensures View() == old(View()).(overflowed := false, finished := true)
      ensures buf[..size] == old(buf[..size])[len := 0]
    {
      ghost var text := buf[..len];
      buf[len] := 0;
      assert buf[..len] == text;
      overflowed := false;
      finished := true;
    }

    /** sbuf_delete */
    method Delete(h: Heap)
      requires dynamic && buf != null ==> buf in h.live
      requires dynstruct ==> this in h.live
      modifies this`buf, h
      ensures h.live == old(h.live - Owned())
      ensures dynamic ==> buf == null
    {
      if dynamic && buf != null {
        h.Free(buf);
        buf := null;
      }
      if dynstruct {
        h.Free(this);
      }
    }

    /** sbuf_new: `memStruct` and `memBuf` are the oracles of its two allocations. */
    static method New(h: Heap, existing: Sbuf?, supplied: array?<byte>, length: int, flags: bv32,
                      memStruct: bool, memBuf: bool)
      returns (s: Sbuf?)
      requires -INT_MAX - 1 <= length <= INT_MAX
      requires existing != null ==> existing !in h.live
      requires supplied != null ==> supplied !in h.live && length <= supplied.Length
      modifies h, existing
      ensures s != null ==> s == existing || (existing == null && fresh(s))
      ensures s == null ==> h.live == old(h.live)
      ensures s != null ==> h.live == old(h.live) + s.Owned() && s.Owned() !! old(h.live)
      ensures s != null <==>
        && length >= 0 && flags & !USRFLAGMSK == 0 && (existing == null ==> memStruct)
        && (supplied == null ==> memBuf && (if flags & AUTOEXTEND != 0 then length <= MaxSize(h.shift) else length > 0))
      ensures s != null ==>
        && s.len == 0 && s.autoextend == (flags & AUTOEXTEND != 0) && !s.finished && !s.overflowed
        && s.dynamic == (supplied == null) && s.dynstruct == (existing == null)
        && (if supplied != null then s.buf == supplied && s.size == length
            else s.size == if s.autoextend then Ceil(h.shift, length) else length)
      ensures s != null && supplied == null ==>
        fresh(s.buf) && s.buf.Length == s.size && forall i :: 0 <= i < s.size ==> s.buf[i] == 0
      ensures s != null ==> (s.Valid(h) <==> supplied == null || length > 0)
      ensures s != null && supplied != null && length == 0 ==> s.Capacity() == SIZE_LIMIT - 1
    {
      if length < 0 || flags & !USRFLAGMSK != 0 {
        return null;
      }
      if existing == null {
        s := h.AllocStruct(memStruct);
        if s == null {
          return null;
        }
        s.autoextend := flags & AUTOEXTEND != 0;
        s.dynstruct := true;
      } else {
        s := existing;
        s.buf, s.size, s.len := null, 0, 0;
        s.dynamic, s.finished, s.overflowed, s.dynstruct := false, false, false, false;
        s.autoextend := flags & AUTOEXTEND != 0;
      }
      if supplied != null {
        s.size := length;
        s.buf := supplied;
        return s;
      }
      var n: nat := length;
      var e := 0;
      if s.autoextend {
        e, n := ExtendSize(h.shift, n);
        ghost var i := CeilIsLeast(h.shift, length);
        CeilFits(h.shift, length);
      }
      if e == -1 || n == 0 {
        s.Delete(h);
        return null;
      }
      var data := h.AllocData(n, true, memBuf);
      if data == null {
        s.Delete(h);
        return null;
      }
      s.buf := data;
      s.size := n;
      s.dynamic := true;
      return s;
    }
  }

  /** One operation of any kind, as SbufText.Do describes it, and what it writes past the text. */
  method Call(s: Sbuf, h: Heap, op: Op) returns (error: int)
    requires s.Valid(h)
    modifies s, s.buf, h
    ensures s.Valid(h) && s.Balanced(h)
    ensures (s.View(), error == 0) == Do(h.shift, old(s.View()), op)
    ensures h.allocations == old(h.allocations) + if s.size != old(s.size) then 1 else 0
    ensures !op.Finish? && !op.Printf? ==> s.KeepsRest()
    ensures op.Finish? ==> s.buf[..s.size] == old(s.buf[..s.size])[s.len := 0]
    ensures op.Printf? && old(s.overflowed) ==> s.size == old(s.size) && s.KeepsRest()
    ensures op.Printf? && error == 0 ==> s.buf[s.len] == 0 && s.KeepsBeyond()
    ensures op.Printf? && op.out.Bytes? && error != 0 && !old(s.overflowed) ==> s.Cut(op.out.text)
  {
    match op {
      case Bcat(data, mem) => error := s.Bcat(h, data, mem);
      case Bcpy(data, mem) => error := s.Bcpy(h, data, mem);
      case Cat(str, mem) => error := s.Cat(h, str, mem);
      case Cpy(str, mem) => error := s.Cpy(h, str, mem);
      case Putc(c, mem) => error := s.Putc(h, c, mem);
      case Printf(out, mem) => ghost var passes; error, passes := s.Vprintf(h, out, mem);
      case Trim => error := s.Trim(h);
      case SetPos(pos) => error := s.SetPos(h, pos);
      case Clear => error := 0; s.Clear(h);
      case Finish => error := 0; s.Finish(h);
    }
  }

  /** The same, with the whole buffer as SbufText.CellsAfter predicts it. */
  method Perform(s: Sbuf, h: Heap, op: Op) returns (error: int)
    requires s.Valid(h)
    modifies s, s.buf, h
    ensures s.Valid(h) && s.Balanced(h)
    ensures (s.View(), error == 0) == Do(h.shift, old(s.View()), op)
    ensures h.allocations == old(h.allocations) + if s.size != old(s.size) then 1 else 0
    ensures Shows(CellsAfter(h.shift, old(s.View()), Cells(old(s.buf[..s.size])), op), s.buf[..s.size])
  {
    ghost var a, was := s.View(), s.buf[..s.size];
    error := Call(s, h, op);
    ghost var now := s.buf[..s.size];
    assert now[..s.len] == s.buf[..s.len] && was[..|a.content|] == a.content;
    if op.Finish? {
      ShowsFinish(h.shift, a, was, now, op);
    } else if op.Printf? {
      ShowsPrintf(h.shift, a, was, now, op);
    } else {
      ShowsText(h.shift, a, was, now, op);
    }
  }

  /** Operation i of a run that started with the text `a` in the buffer `cells`. */
  method PerformNext(s: Sbuf, h: Heap, ops: seq<Op>, i: nat, ghost a: Text, ghost cells: seq<Cell>)
    requires s.Valid(h) && i < |ops|
    requires s.View() == Run(h.shift, a, ops[..i])
    requires Shows(CellsRun(h.shift, a, cells, ops[..i]), s.buf[..s.size])
    modifies s, s.buf, h
    ensures s.Valid(h) && s.Balanced(h)
    ensures s.View() == Run(h.shift, a, ops[..i + 1])
    ensures Shows(CellsRun(h.shift, a, cells, ops[..i + 1]), s.buf[..s.size])
    ensures h.allocations - Reallocations(h.shift, a, ops[..i + 1])
         == old(h.allocations) - Reallocations(h.shift, a, ops[..i])
  {
    ghost var was := s.buf[..s.size];
    var e := Perform(s, h, ops[i]);
    OneMore(h.shift, a, cells, ops, i, was, s.buf[..s.size]);
  }

  /**
   Every sequence of operations refines the run of the text, keeps the
   representation valid and everybody else's allocations untouched, allocates
   exactly once per change of size, and leaves the predicted bytes in the
   buffer.
   */
  method Execute(s: Sbuf, h: Heap, ops: seq<Op>)
    requires s.Valid(h)
    modifies s, s.buf, h
    ensures s.Valid(h) && s.Balanced(h)
    ensures s.View() == Run(h.shift, old(s.View()), ops)
    ensures Shows(CellsRun(h.shift, old(s.View()), Cells(old(s.buf[..s.size])), ops), s.buf[..s.size])
    ensures h.allocations == old(h.allocations) + Reallocations(h.shift, old(s.View()), ops)
  {
    var i := 0;
    ghost var a, cells := s.View(), Cells(s.buf[..s.size]);
    assert ops[..0] == [];
    while i < |ops|
      invariant 0 <= i <= |ops|
      invariant s.Valid(h) && s.Balanced(h)
      invariant s.View() == Run(h.shift, a, ops[..i])
      invariant Shows(CellsRun(h.shift, a, cells, ops[..i]), s.buf[..s.size])
      invariant h.allocations == old(h.allocations) + Reallocations(h.shift, a, ops[..i])
    {
      PerformNext(s, h, ops, i, a, cells);
      i := i + 1;
    }
    assert ops[..i] == ops;
  }

  /**
   The whole life of an sbuf, whatever fails on the way: nothing it allocated
   outlives sbuf_delete, nothing else is freed, and a buffer the caller
   supplied is never freed.  A supplied buffer must hold at least one byte.
   */
  method Lifetime(h: Heap, existing: Sbuf?, supplied: array?<byte>, length: int, flags: bv32,
                  memStruct: bool, memBuf: bool, ops: seq<Op>)
    requires -INT_MAX - 1 <= length <= INT_MAX
    requires existing != null ==> existing !in h.live
    requires supplied != null ==> supplied !in h.live && 0 != length <= supplied.Length
    modifies h, existing, supplied
    ensures h.live == old(h.live)
  {
    var s := Sbuf.New(h, existing, supplied, length, flags, memStruct, memBuf);
    if s != null {
      Execute(s, h, ops);
      s.Delete(h);
    }
  }

  /**
   After finish and any operations the text is terminated if every operation
   keeps the NUL, and the buffer as finish left it decides whether it is, as
   long as the sbuf has not grown and no formatting failed.
   */
  method FinishAndRun(s: Sbuf, h: Heap, ops: seq<Op>)
    requires s.Valid(h)
    modifies s, s.buf, h
    ensures s.Valid(h) && s.Balanced(h)
    ensures
      var a := old(s.View()).(overflowed := false, finished := true);
      var cells := Cells(old(s.buf[..s.size])[old(s.len) := 0]);
      && s.View() == Run(h.shift, a, ops)
      && (AllKeepNul(h.shift, a, cells, ops) ==> s.buf[s.len] == 0)
      && (s.size == old(s.size) && (forall op :: op in ops ==> !(op.Printf? && op.out.FormatError?)) ==>
            (s.buf[s.len] == 0 <==> Terminated(h.shift, a, cells, ops)))
  {
    s.Finish(h);
    ghost var a, now := s.View(), s.buf[..s.size];
    assert now[..s.len] == a.content;
    TerminatedExactly(h.shift, a, Cells(now), ops);
    HoldsRun(h.shift, a, Cells(now), ops);
    Execute(s, h, ops);
    assert s.buf[..s.size][s.len] == s.buf[s.len];
    if s.size == a.size && forall op :: op in ops ==> !(op.Printf? && op.out.FormatError?) {
      DecidedInPlace(h.shift, a, Cells(now), ops);
    }
  }

  /** FINISHED does not mean NUL-terminated once anything else has been done: setpos keeps the flag. */
  method FinishedButNotTerminated(h: Heap) returns (s: Sbuf)
    modifies h
    ensures s.Valid(h) && s.finished && s.buf[s.len] != 0
  {
    var t := Sbuf.New(h, null, null, 16, 0, true, true);
    s := t;
    var e := s.Bcat(h, [65, 66], true);
    s.Finish(h);
    assert s.View().content[1] == 66;
    assert s.buf[1] == 66;
    e := s.SetPos(h, 1);
    assert s.len == |s.View().content| == 1;
  }

  /** An append after finish loses the NUL too: what follows the text then is whatever the buffer held there. */
  method AppendUncoversLeftovers(h: Heap) returns (s: Sbuf)
    modifies h
    ensures s.Valid(h) && s.finished && s.buf[s.len] != 0
  {
    var t := Sbuf.New(h, null, null, 16, 0, true, true);
    s := t;
    var e := s.Bcat(h, [65, 66, 67], true);
    assert s.View().content[2] == 67;
    assert s.buf[2] == 67;
    e := s.SetPos(h, 1);
    assert s.len == |s.View().content| == 1;
    s.Finish(h);
    assert s.buf[..s.size][2] == 67;
    e := s.Putc(h, 68, true);
    assert s.len == |s.View().content| == 2;
  }
}
