/**
 sebsd_csflag_bits of kext/spawn.c: the code-signing flags as a comma-separated
 list of letters, cut to the caller's buffer.
 */
module CsFlags {
  const FLAGS: nat := 10
  const COMMA: char := ','
  const NUL: char := '\0'

  /** The bit number of each flag, in the order they are printed. */
  function BitOf(k: nat): nat
    requires k < FLAGS
  {
    [0, 1, 29, 8, 9, 16, 11, 28, 26, 3][k]
  }

  function LetterOf(k: nat): char
    requires k < FLAGS
  {
    "VASHKRTDPI"[k]
  }

  /** The letters of the first k flags that are set; `flags` are the numbers of the bits that are set. */
  function Letters(flags: set<nat>, k: nat): (s: string)
    requires k <= FLAGS
    ensures |s| <= k
  {
    if k == 0 then ""
    else Letters(flags, k - 1) + if BitOf(k - 1) in flags then [LetterOf(k - 1)] else []
  }

  function Join(letters: string): (s: string)
    ensures |s| == if letters == [] then 0 else 2 * |letters| - 1
  {
    if |letters| <= 1 then letters else [letters[0], COMMA] + Join(letters[1..])
  }

  /** The untruncated rendering. */
  function Rendering(flags: set<nat>): string {
    Join(Letters(flags, FLAGS))
  }

  function Cut(s: string, n: nat): (r: string)
    ensures r <= s && |r| <= n && (|r| < n ==> r == s)
  {
    if |s| <= n then s else s[..n]
  }

  lemma {:induction false} JoinSnoc(letters: string, c: char)
    ensures Join(letters + [c]) == Join(letters) + (if letters == [] then [] else [COMMA]) + [c]
  {
    if letters != [] {
      assert (letters + [c])[1..] == letters[1..] + [c];
      if |letters| > 1 {
        JoinSnoc(letters[1..], c);
      }
    }
  }

  // ----- reading it back -----

  /** The letters between the commas. */
  function Unjoin(s: string): string {
    if |s| <= 1 then s else [s[0]] + Unjoin(s[2..])
  }

  lemma {:induction false} UnjoinJoin(letters: string)
    ensures Unjoin(Join(letters)) == letters
  {
    if |letters| > 1 {
      assert Join(letters)[2..] == Join(letters[1..]);
      UnjoinJoin(letters[1..]);
    }
  }

  lemma {:induction false} LettersDiffer(i: nat, j: nat)
    requires i < FLAGS && j < FLAGS && LetterOf(i) == LetterOf(j)
    ensures i == j
  {}

  lemma {:induction false} LetterIffFlag(flags: set<nat>, k: nat, i: nat)
    requires k <= FLAGS && i < FLAGS
    ensures LetterOf(i) in Letters(flags, k) <==> i < k && BitOf(i) in flags
  {
    if k > 0 {
      LetterIffFlag(flags, k - 1, i);
      if LetterOf(i) == LetterOf(k - 1) {
        LettersDiffer(i, k - 1);
      }
    }
  }

  /** With 20 bytes or more nothing is cut, and the ten flags are read back from the text. */
  lemma {:induction false} Recovered(flags: set<nat>, len: nat)
    requires len >= 20
    ensures Cut(Rendering(flags), len - 1) == Rendering(flags)
    ensures forall i: nat :: i < FLAGS ==>
      (LetterOf(i) in Unjoin(Cut(Rendering(flags), len - 1)) <==> BitOf(i) in flags)
  {
    UnjoinJoin(Letters(flags, FLAGS));
    forall i: nat | i < FLAGS
      ensures LetterOf(i) in Letters(flags, FLAGS) <==> BitOf(i) in flags
    {
      LetterIffFlag(flags, FLAGS, i);
    }
  }

  /** With 19 bytes the last letter is lost when all ten flags are set. */
  lemma {:induction false} NineteenIsTooFew(flags: set<nat>)
    requires {0, 1, 3, 8, 9, 11, 16, 26, 28, 29} <= flags
    ensures Rendering(flags) == "V,A,S,H,K,R,T,D,P,I"
    ensures Cut(Rendering(flags), 18) == "V,A,S,H,K,R,T,D,P,"
  {
    AllLetters(flags, FLAGS);
    assert "VASHKRTDPI"[..FLAGS] == "VASHKRTDPI";
    JoinOfTen("VASHKRTDPI");
  }

  lemma {:induction false} AllLetters(flags: set<nat>, k: nat)
    requires k <= FLAGS && forall i: nat :: i < FLAGS ==> BitOf(i) in flags
    ensures Letters(flags, k) == "VASHKRTDPI"[..k]
  {
    if k > 0 {
      AllLetters(flags, k - 1);
    }
  }

  lemma {:induction false} JoinOfTen(s: string)
    requires |s| == 10
    ensures Join(s) == [s[0], ',', s[1], ',', s[2], ',', s[3], ',', s[4], ',',
                        s[5], ',', s[6], ',', s[7], ',', s[8], ',', s[9]]
  {
    forall i: nat | i < 10 ensures Join(s)[2 * i] == s[i] && (i > 0 ==> Join(s)[2 * i - 1] == ',') {
      JoinAt(s, i);
    }
  }

  // ----- what the rendering says, letter by letter -----

  lemma {:induction false} JoinAt(letters: string, i: nat)
    requires i < |letters|
    ensures Join(letters)[2 * i] == letters[i]
    ensures i > 0 ==> Join(letters)[2 * i - 1] == ','
  {
    if i > 0 {
      JoinAt(letters[1..], i - 1);
    }
  }

  lemma {:induction false} JoinHas(letters: string, c: char)
    requires c != ','
    ensures c in Join(letters) <==> c in letters
  {
    if |letters| > 1 {
      JoinHas(letters[1..], c);
    }
  }

  /** Each letter is in the rendering if and only if its own code-signing flag is set. */
  lemma {:induction false} LetterPerFlag(flags: set<nat>)
    ensures 'V' in Rendering(flags) <==> 0 in flags    // CS_VALID             0x00000001
    ensures 'A' in Rendering(flags) <==> 1 in flags    // CS_ADHOC             0x00000002
    ensures 'I' in Rendering(flags) <==> 3 in flags    // CS_INSTALLER         0x00000008
    ensures 'H' in Rendering(flags) <==> 8 in flags    // CS_HARD              0x00000100
    ensures 'K' in Rendering(flags) <==> 9 in flags    // CS_KILL              0x00000200
    ensures 'T' in Rendering(flags) <==> 11 in flags   // CS_RESTRICT          0x00000800
    ensures 'R' in Rendering(flags) <==> 16 in flags   // CS_RUNTIME           0x00010000
    ensures 'P' in Rendering(flags) <==> 26 in flags   // CS_PLATFORM_BINARY   0x04000000
    ensures 'D' in Rendering(flags) <==> 28 in flags   // CS_DEBUGGED          0x10000000
    ensures 'S' in Rendering(flags) <==> 29 in flags   // CS_SIGNED            0x20000000
  {
    forall k: nat | k < FLAGS ensures LetterOf(k) in Rendering(flags) <==> BitOf(k) in flags {
      LetterIffFlag(flags, FLAGS, k);
      JoinHas(Letters(flags, FLAGS), LetterOf(k));
    }
    assert LetterOf(0) == 'V' && LetterOf(1) == 'A' && LetterOf(2) == 'S' && LetterOf(3) == 'H' && LetterOf(4) == 'K';
    assert LetterOf(5) == 'R' && LetterOf(6) == 'T' && LetterOf(7) == 'D' && LetterOf(8) == 'P' && LetterOf(9) == 'I';
  }

  /** Where the letter stands among the first k that can be printed. */
  lemma {:induction false} LetterRank(flags: set<nat>, k: nat, i: nat) returns (a: nat)
    requires k <= FLAGS && i < |Letters(flags, k)|
    ensures i <= a < k && Letters(flags, k)[i] == "VASHKRTDPI"[a]
    ensures i > 0 ==> exists b: nat :: b < a && Letters(flags, k)[i - 1] == "VASHKRTDPI"[b]
  {
    if i < |Letters(flags, k - 1)| {
      a := LetterRank(flags, k - 1, i);
    } else {
      a := k - 1;
      if i > 0 {
        var b := LetterRank(flags, k - 1, i - 1);
      }
    }
  }

  /** Commas and letters alternate. */
  lemma {:induction false} CommasBetween(flags: set<nat>, i: nat)
    requires 2 * i < |Rendering(flags)|
    ensures i < |Letters(flags, FLAGS)| && Rendering(flags)[2 * i] == Letters(flags, FLAGS)[i]
    ensures i > 0 ==> Rendering(flags)[2 * i - 1] == ','
    ensures |Rendering(flags)| % 2 == 1
  {
    JoinAt(Letters(flags, FLAGS), i);
  }

  /** The letters come in the order V A S H K R T D P I, each at most once. */
  lemma {:induction false} LettersInOrder(flags: set<nat>, i: nat) returns (a: nat)
    requires 2 * i < |Rendering(flags)|
    ensures a < 10 && Rendering(flags)[2 * i] == "VASHKRTDPI"[a]
    ensures i > 0 ==> exists b: nat :: b < a && Rendering(flags)[2 * i - 2] == "VASHKRTDPI"[b]
  {
    CommasBetween(flags, i);
    a := LetterRank(flags, FLAGS, i);
    if i > 0 {
      CommasBetween(flags, i - 1);
    }
  }

  // ----- the C function -----

  /** What has been written when the letters seen so far are `letters`: p is the write position, left what remains. */
  ghost predicate Written(buf: array<char>, len: nat, p: nat, left: nat, first: bool, letters: string)
    reads buf
  {
    && 1 <= left && p + left == len <= buf.Length
    && buf[..p] == Cut(Join(letters), len - 1)
    && (first <==> letters == [])
  }

  /** One character, if there is room for it and the NUL. */
  method Emit(c: char, buf: array<char>, len: nat, p: nat, left: nat, ghost text: string)
    returns (p': nat, left': nat)
    requires 1 <= left && p + left == len <= buf.Length
    requires buf[..p] == Cut(text, len - 1)
    modifies buf
    ensures 1 <= left' && p' + left' == len
    ensures buf[..p'] == Cut(text + [c], len - 1)
    ensures forall i :: len <= i < buf.Length ==> buf[i] == old(buf[i])
  {
    p', left' := p, left;
    if left > 1 {
      buf[p] := c;
      p', left' := p + 1, left - 1;
    }
  }

  /** CSFLAG_BIT */
  method FlagBit(flags: set<nat>, k: nat, buf: array<char>, len: nat, p: nat, left: nat, first: bool)
    returns (p': nat, left': nat, first': bool)
    requires k < FLAGS && Written(buf, len, p, left, first, Letters(flags, k))
    modifies buf
    ensures Written(buf, len, p', left', first', Letters(flags, k + 1))
    ensures forall i :: len <= i < buf.Length ==> buf[i] == old(buf[i])
  {
    p', left', first' := p, left, first;
    assert Letters(flags, k + 1) == Letters(flags, k) + if BitOf(k) in flags then [LetterOf(k)] else [];
    if BitOf(k) in flags {
      ghost var text := Join(Letters(flags, k));
      JoinSnoc(Letters(flags, k), LetterOf(k));
      if !first {
        p', left' := Emit(COMMA, buf, len, p', left', text);
        text := text + [COMMA];
      }
      p', left' := Emit(LetterOf(k), buf, len, p', left', text);
      first' := false;
      assert text + [LetterOf(k)] == Join(Letters(flags, k + 1));
    } else {
      assert Letters(flags, k + 1) == Letters(flags, k);
    }
  }

  /** The flags from CS_VALID to CS_KILL. */
  method FirstFlagBits(flags: set<nat>, buf: array<char>, len: nat, p: nat, left: nat, first: bool)
    returns (p': nat, left': nat, first': bool)
    requires Written(buf, len, p, left, first, Letters(flags, 0))
    modifies buf
    ensures Written(buf, len, p', left', first', Letters(flags, 5))
    ensures forall i :: len <= i < buf.Length ==> buf[i] == old(buf[i])
  {
    p', left', first' := FlagBit(flags, 0, buf, len, p, left, first);
    p', left', first' := FlagBit(flags, 1, buf, len, p', left', first');
    p', left', first' := FlagBit(flags, 2, buf, len, p', left', first');
    p', left', first' := FlagBit(flags, 3, buf, len, p', left', first');
    p', left', first' := FlagBit(flags, 4, buf, len, p', left', first');
  }

  /** sebsd_csflag_bits: exactly the first len - 1 characters of the rendering and a NUL, and nothing past len. */
  method CsflagBits(flags: set<nat>, buf: array<char>, len: nat) returns (ghost n: nat)
    requires 1 <= len <= buf.Length
    modifies buf
    ensures n == |Cut(Rendering(flags), len - 1)| < len
    ensures buf[..n] == Cut(Rendering(flags), len - 1) && buf[n] == NUL
    ensures forall i :: len <= i < buf.Length ==> buf[i] == old(buf[i])
  {
    var p, left, first := 0, len, true;
    buf[0] := NUL;
    p, left, first := FirstFlagBits(flags, buf, len, p, left, first);
    p, left, first := FlagBit(flags, 5, buf, len, p, left, first);
    p, left, first := FlagBit(flags, 6, buf, len, p, left, first);
    p, left, first := FlagBit(flags, 7, buf, len, p, left, first);
    p, left, first := FlagBit(flags, 8, buf, len, p, left, first);
    p, left, first := FlagBit(flags, 9, buf, len, p, left, first);
    ghost var text := buf[..p];
    buf[p] := NUL;
    assert buf[..p] == text;
    n := p;
  }
}
