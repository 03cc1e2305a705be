/**
 The compiler as the source runs it: it appends to a byte buffer, inserts in front of code
 already emitted, duplicates code and patches jumps. Each of its operations is proved
 against the code functions.
 */
module ReCompiler {
  import opened Basics
  import opened ReCode
  import opened ReClass
  import opened ReSyntax
  import opened ReScan
  import opened ReFits
  import opened ReNesting
  import opened ReStack
  import opened ReSafety

  lemma EncodeWord(i: Instr)
    requires ValidInstr(i) && IsWord(i)
    ensures Encode(i) == [Opcode(i)] + U32(WordOf(i))
  {
  }

  lemma EncodeCons(i: Instr, t: seq<Instr>)
    requires ValidInstr(i) && AllValid(t)
    ensures AllValid([i] + t) && EncodeAll([i] + t) == Encode(i) + EncodeAll(t)
  {
    hide ValidInstr, Encode;
    EncodeOne(i);
    EncodeAppend([i], t);
  }

  lemma EncodeSnoc(t: seq<Instr>, i: Instr)
    requires ValidInstr(i) && AllValid(t)
    ensures AllValid(t + [i]) && EncodeAll(t + [i]) == EncodeAll(t) + Encode(i)
  {
    hide ValidInstr, Encode;
    EncodeOne(i);
    EncodeAppend(t, [i]);
  }

  class Compiler {
    var byteCode: seq<Byte>
    var captureCount: nat

    constructor ()
      ensures byteCode == [] && captureCount == 1
    {
      byteCode := [];
      captureCount := 1;
    }

    // ----- the buffer -----

    method PutByte(b: Byte)
      modifies this`byteCode
      ensures byteCode == old(byteCode) + [b]
    {
      byteCode := byteCode + [b];
    }

    method PutU16(x: int)
      modifies this`byteCode
      ensures byteCode == old(byteCode) + U16(x)
    {
      byteCode := byteCode + U16(x);
    }

    method PutU32(x: int)
      modifies this`byteCode
      ensures byteCode == old(byteCode) + U32(x)
    {
      byteCode := byteCode + U32(x);
    }

    /** Overwrite four bytes. */
    method PatchU32(pos: nat, x: int)
      requires pos + 4 <= |byteCode|
      modifies this`byteCode
      ensures byteCode == old(byteCode)[..pos] + U32(x) + old(byteCode)[pos + 4..]
    {
      byteCode := byteCode[..pos] + U32(x) + byteCode[pos + 4..];
    }

    /** Open a gap of n bytes; what it holds is not yet defined. */
    method Insert(pos: nat, n: nat) returns (ghost gap: seq<Byte>)
      requires pos <= |byteCode|
      modifies this`byteCode
      ensures |gap| == n && byteCode == old(byteCode)[..pos] + gap + old(byteCode)[pos..]
    {
      var any := seq(n, _ => 0);
      gap := any;
      byteCode := byteCode[..pos] + any + byteCode[pos..];
    }

    /** Copy n bytes of the buffer to its end. */
    method PutSelf(pos: nat, n: nat)
      requires pos + n <= |byteCode|
      modifies this`byteCode
      ensures byteCode == old(byteCode) + old(byteCode)[pos..pos + n]
    {
      byteCode := byteCode + byteCode[pos..pos + n];
    }

    method EmitOp(op: Byte)
      modifies this`byteCode
      ensures byteCode == old(byteCode) + [op]
    {
      PutByte(op);
    }

    method EmitOpU8(op: Byte, x: Byte)
      modifies this`byteCode
      ensures byteCode == old(byteCode) + [op, x]
    {
      PutByte(op);
      PutByte(x);
    }

    /** Returns where the operand stands, for patching. */
    method EmitOpU32(op: Byte, x: int) returns (pos: nat)
      modifies this`byteCode
      ensures byteCode == old(byteCode) + ([op] + U32(x)) && pos == |old(byteCode)| + 1
    {
      PutByte(op);
      pos := |byteCode|;
      PutU32(x);
    }

    /** A jump to an absolute position. */
    method EmitGoto(op: Byte, target: nat)
      modifies this`byteCode
      ensures byteCode == old(byteCode) + ([op] + U32(target - (|old(byteCode)| + 5)))
    {
      PutByte(op);
      var pos := |byteCode|;
      PutU32(target - (pos + 4));
    }

    /** An instruction with one word, in front of the code from pos on. */
    method InsertWord(pos: nat, op: Byte, x: int)
      requires pos <= |byteCode|
      modifies this`byteCode
      ensures byteCode == old(byteCode)[..pos] + ([op] + U32(x)) + old(byteCode)[pos..]
    {
      ghost var b := byteCode;
      var gap := Insert(pos, 5);
      byteCode := byteCode[pos := op];
      assert byteCode == b[..pos] + ([op] + gap[1..]) + b[pos..];
      PatchU32(pos + 1, x);
      assert byteCode == b[..pos] + ([op] + U32(x)) + b[pos..];
    }

    /** Fill the next four bytes of a gap. */
    method FillU32(pos: nat, x: int, ghost pre: seq<Byte>, ghost gap: seq<Byte>, ghost rest: seq<Byte>)
      requires pos == |pre| && |gap| >= 4 && byteCode == pre + gap + rest
      modifies this`byteCode
      ensures byteCode == (pre + U32(x)) + gap[4..] + rest
    {
      hide U32;
      PatchU32(pos, x);
      assert (pre + gap + rest)[..pos] == pre && (pre + gap + rest)[pos + 4..] == gap[4..] + rest;
    }

    /** Fill the next byte of a gap. */
    method FillByte(pos: nat, b: Byte, ghost pre: seq<Byte>, ghost gap: seq<Byte>, ghost rest: seq<Byte>)
      requires pos == |pre| && |gap| >= 1 && byteCode == pre + gap + rest
      modifies this`byteCode
      ensures byteCode == (pre + [b]) + gap[1..] + rest
    {
      byteCode := byteCode[pos := b];
    }

    /** Fill the next five bytes of a gap with an instruction of one word. */
    method FillWord(pos: nat, op: Byte, x: int, ghost pre: seq<Byte>, ghost gap: seq<Byte>, ghost rest: seq<Byte>)
      requires pos == |pre| && |gap| >= 5 && byteCode == pre + gap + rest
      modifies this`byteCode
      ensures byteCode == (pre + ([op] + U32(x))) + gap[5..] + rest
    {
      hide U32;
      FillByte(pos, op, pre, gap, rest);
      FillU32(pos + 1, x, pre + [op], gap[1..], rest);
      assert gap[1..][4..] == gap[5..] && pre + [op] + U32(x) == pre + ([op] + U32(x));
    }

    // ----- quantifiers -----

    /** The loop opcode in front of a simple atom, `match` behind it. */
    method WrapSimple(start: nat, min: nat, max: nat, count: nat, ghost pre: seq<Byte>, ghost x: seq<Instr>)
      requires start == |pre| && AllValid(x) && byteCode == pre + EncodeAll(x) && SimpleCount(x) == count
      requires AllValid(SimpleLoop(x, min, max))
      modifies this`byteCode
      ensures byteCode == pre + EncodeAll(SimpleLoop(x, min, max))
    {
      hide EncodeAll, AllValid, Encode, U32, SimpleCount, Size;
      ghost var b := EncodeAll(x);
      EmitOp(10);
      ghost var rest := b + [10];
      assert byteCode == pre + rest && byteCode[..start] == pre && byteCode[start..] == rest;
      var gap := Insert(start, 17);
      var skip := |byteCode| - start - 17;
      FillWord(start, 28, skip, pre, gap, rest);
      ghost var p1 := pre + ([28] + U32(skip));
      FillU32(start + 5, min, p1, gap[5..], rest);
      ghost var p2 := p1 + U32(min);
      FillU32(start + 9, max, p2, gap[5..][4..], rest);
      ghost var p3 := p2 + U32(max);
      FillU32(start + 13, count, p3, gap[5..][4..][4..], rest);
      SimpleBytes(x, min, max, count);
      JoinSimple(pre, skip, min, max, count, gap, b);
    }

    /** An unbounded loop around the atom at st. */
    method WrapStar(st: nat, len: nat, greedy: bool, check: bool, ghost pre: seq<Byte>, ghost x: seq<Instr>)
      requires st == |pre| && AllValid(x) && byteCode == pre + EncodeAll(x) && len == Size(x)
      requires AllValid(Star(x, greedy, check))
      modifies this`byteCode
      ensures byteCode == pre + EncodeAll(Star(x, greedy, check))
    {
      hide EncodeAll, AllValid, Encode, U32, Size, Star;
      ghost var b := EncodeAll(x);
      var z := if check then 1 else 0;
      var op: Byte := if greedy then 9 else 8;
      assert byteCode[..st] == pre && byteCode[st..] == b;
      var gap := Insert(st, 5 + z);
      FillWord(st, op, len + 5 + z, pre, gap, b);
      ghost var p1 := pre + ([op] + U32(len + 5 + z));
      if check {
        CheckedStarBytes(x, greedy, len);
        FillByte(st + 5, 25, p1, gap[5..], b);
        EmitGoto(26, st);
        JoinStarChecked(pre, op, len, gap, b);
      } else {
        StarBytes(x, greedy, len);
        EmitGoto(7, st);
        JoinStar(pre, op, len, gap, b);
      }
    }

    /** An unbounded loop over a copy of the atom at `at`. */
    method AppendStar(at: nat, len: nat, greedy: bool, check: bool, ghost x: seq<Instr>)
      requires at + len <= |byteCode| && AllValid(x) && byteCode[at..at + len] == EncodeAll(x) && len == Size(x)
      requires AllValid(Star(x, greedy, check))
      modifies this`byteCode
      ensures byteCode == old(byteCode) + EncodeAll(Star(x, greedy, check))
    {
      hide EncodeAll, AllValid, Encode, U32, Size, Star;
      ghost var b, c := EncodeAll(x), byteCode;
      var pos := |byteCode|;
      var op: Byte := if greedy then 9 else 8;
      var z := if check then 1 else 0;
      var _ := EmitOpU32(op, len + 5 + z);
      if check {
        EmitOp(25);
      }
      assert byteCode[at..at + len] == b;
      PutSelf(at, len);
      ghost var w := [op] + U32(len + 5 + z);
      if check {
        CheckedStarBytes(x, greedy, len);
        EmitGoto(26, pos);
        AllAppended(c, w, [25], b, [26] + U32(-(len as int + 11)));
      } else {
        StarBytes(x, greedy, len);
        EmitGoto(7, pos);
        AllAppended(c, w, [], b, [7] + U32(-(len as int + 10)));
      }
    }

    /** A counted optional loop around the atom at st. */
    method WrapUpTo(st: nat, len: nat, n: nat, greedy: bool, ghost pre: seq<Byte>, ghost x: seq<Instr>)
      requires st == |pre| && AllValid(x) && byteCode == pre + EncodeAll(x) && len == Size(x)
      requires AllValid(UpTo(x, n, greedy))
      modifies this`byteCode
      ensures byteCode == pre + EncodeAll(UpTo(x, n, greedy))
    {
      hide EncodeAll, AllValid, Encode, U32, Size;
      ghost var b := EncodeAll(x);
      var op: Byte := if greedy then 9 else 8;
      assert byteCode[..st] == pre && byteCode[st..] == b;
      var gap := Insert(st, 10);
      FillWord(st, 15, n, pre, gap, b);
      FillWord(st + 5, op, len + 5, pre + ([15] + U32(n)), gap[5..], b);
      EmitGoto(14, st + 5);
      EmitOp(16);
      UpToBytes(x, n, greedy, len);
      JoinUpTo(pre, n, op, len, gap, b);
    }

    /** A counted optional loop over a copy of the atom at `at`. */
    method AppendUpTo(at: nat, len: nat, n: nat, greedy: bool, ghost x: seq<Instr>)
      requires at + len <= |byteCode| && AllValid(x) && byteCode[at..at + len] == EncodeAll(x) && len == Size(x)
      requires AllValid(UpTo(x, n, greedy))
      modifies this`byteCode
      ensures byteCode == old(byteCode) + EncodeAll(UpTo(x, n, greedy))
    {
      hide EncodeAll, AllValid, Encode, U32, Size;
      ghost var b, c := EncodeAll(x), byteCode;
      var op: Byte := if greedy then 9 else 8;
      var _ := EmitOpU32(15, n);
      var pos := |byteCode|;
      var _ := EmitOpU32(op, len + 5);
      assert byteCode[at..at + len] == b;
      PutSelf(at, len);
      EmitGoto(14, pos);
      EmitOp(16);
      UpToBytes(x, n, greedy, len);
    }

    /** A counted required loop around the atom at start. */
    method WrapExactly(start: nat, len: nat, n: nat, ghost pre: seq<Byte>, ghost x: seq<Instr>)
      requires start == |pre| && AllValid(x) && byteCode == pre + EncodeAll(x) && len == Size(x)
      requires AllValid(Exactly(x, n))
      modifies this`byteCode
      ensures byteCode == pre + EncodeAll(Exactly(x, n)) && start + 5 + len <= |byteCode|
      ensures byteCode[start + 5..start + 5 + len] == EncodeAll(x)
    {
      hide EncodeAll, AllValid, Encode, U32, Size;
      ghost var b := EncodeAll(x);
      InsertWord(start, 15, n);
      assert byteCode == pre + ([15] + U32(n)) + b;
      EmitGoto(14, start + 5);
      EmitOp(16);
      ExactlyBytes(x, n, len);
      assert byteCode == pre + ([15] + U32(n)) + b + ([14] + U32(-(len as int + 5))) + [16];
    }

    /** Clear the captures of the loop first, if it has any; the position of the atom after that. */
    method WrapReset(start: nat, cc: nat, ghost pre: seq<Byte>, ghost b: seq<Byte>) returns (st: nat)
      requires start == |pre| && byteCode == pre + b && cc <= captureCount <= 256
      modifies this`byteCode
      ensures AllValid(Reset(cc, captureCount - cc)) && st == start + |EncodeAll(Reset(cc, captureCount - cc))|
      ensures byteCode == pre + EncodeAll(Reset(cc, captureCount - cc)) + b
    {
      hide EncodeAll;
      st := start;
      ResetBytes(cc, captureCount - cc);
      if cc != captureCount {
        assert byteCode[..start] == pre && byteCode[start..] == b;
        var gap := Insert(start, 3);
        FillByte(start, 13, pre, gap, b);
        FillByte(start + 1, cc, pre + [13], gap[1..], b);
        FillByte(start + 2, captureCount - 1, pre + [13] + [cc], gap[1..][1..], b);
        assert gap[1..][1..][1..] == [];
        assert byteCode == pre + [13, cc, captureCount - 1] + b;
        st := start + 3;
      } else {
        assert pre + [] + b == pre + b;
      }
    }

    /** An atom that may be skipped. */
    method WrapOptional(st: nat, len: nat, greedy: bool, ghost pre: seq<Byte>, ghost x: seq<Instr>)
      requires st == |pre| && AllValid(x) && byteCode == pre + EncodeAll(x) && len == Size(x)
      requires AllValid([Split(greedy, Size(x))] + x)
      modifies this`byteCode
      ensures byteCode == pre + EncodeAll([Split(greedy, Size(x))] + x)
    {
      hide EncodeAll, Size, AllValid, U32;
      assert byteCode[..st] == pre && byteCode[st..] == EncodeAll(x);
      InsertWord(st, if greedy then 9 else 8, len);
      ghost var i := Split(greedy, len);
      ValidFirst(i, x);
      EncodeCons(i, x);
      EncodeWord(i);
      assert pre + Encode(i) + EncodeAll(x) == pre + (Encode(i) + EncodeAll(x));
    }

    /** A loop that may be skipped. */
    method WrapZeroOrMore(start: nat, len: nat, cc: nat, max: nat, greedy: bool, check: bool, ghost pre: seq<Byte>,
        ghost x: seq<Instr>)
      requires start == |pre| && AllValid(x) && byteCode == pre + EncodeAll(x) && len == Size(x)
      requires cc <= captureCount <= 256
      requires AllValid(ZeroOrMore(x, max, greedy, check))
      modifies this`byteCode
      ensures AllValid(Reset(cc, captureCount - cc))
      ensures byteCode == pre + EncodeAll(Reset(cc, captureCount - cc)) + EncodeAll(ZeroOrMore(x, max, greedy, check))
    {
      hide EncodeAll, Size, AllValid, Star, UpTo, Reset, U32;
      var st := WrapReset(start, cc, pre, EncodeAll(x));
      ghost var p1 := pre + EncodeAll(Reset(cc, captureCount - cc));
      if max == 0 {
        assert byteCode[..st] == p1;
        byteCode := byteCode[..st];
        NoBytes();
      } else if max == 1 {
        WrapOptional(st, len, greedy, p1, x);
      } else if max == INT32_MAX {
        WrapStar(st, len, greedy, check, p1, x);
      } else {
        WrapUpTo(st, len, max, greedy, p1, x);
      }
    }

    /** The iterations after the required ones, over a copy of the atom at `at`. */
    method AppendRest(at: nat, len: nat, min: nat, max: nat, greedy: bool, check: bool, ghost x: seq<Instr>)
      requires at + len <= |byteCode| && AllValid(x) && byteCode[at..at + len] == EncodeAll(x) && len == Size(x)
      requires AllValid(Rest(x, min, max, greedy, check))
      modifies this`byteCode
      ensures byteCode == old(byteCode) + EncodeAll(Rest(x, min, max, greedy, check))
    {
      hide EncodeAll, Size, AllValid, Star, UpTo;
      if max == INT32_MAX {
        AppendStar(at, len, greedy, check, x);
      } else if max > min {
        AppendUpTo(at, len, max - min, greedy, x);
      } else {
        NoBytes();
      }
    }

    /** The generic loop around the atom at start. */
    method WrapGeneric(start: nat, len: nat, cc: nat, min: nat, max: nat, greedy: bool, check: bool,
        ghost pre: seq<Byte>, ghost x: seq<Instr>)
      requires start == |pre| && AllValid(x) && byteCode == pre + EncodeAll(x) && len == Size(x)
      requires cc <= captureCount <= 256
      requires check == (greedy && !CheckAdvance(x))
      requires AllValid(GenericLoop(x, cc, captureCount - cc, min, max, greedy))
      modifies this`byteCode
      ensures byteCode == pre + EncodeAll(GenericLoop(x, cc, captureCount - cc, min, max, greedy))
    {
      hide EncodeAll, Size, AllValid, Rest, ZeroOrMore, Reset, Exactly, CheckAdvance;
      if min == 0 {
        ghost var y, z := Reset(cc, captureCount - cc), ZeroOrMore(x, max, greedy, check);
        ValidSplit(y, z);
        WrapZeroOrMore(start, len, cc, max, greedy, check, pre, x);
        EncodeAppend(y, z);
        assert pre + EncodeAll(y) + EncodeAll(z) == pre + (EncodeAll(y) + EncodeAll(z));
      } else if min == 1 && max == INT32_MAX && !check {
        ghost var i := Split(!greedy, -(len as int + 5));
        ValidLast(x, i);
        EncodeSnoc(x, i);
        EncodeWord(i);
        EmitGoto(if greedy then 8 else 9, start);
        assert pre + EncodeAll(x) + Encode(i) == pre + (EncodeAll(x) + Encode(i));
      } else {
        WrapRequired(start, len, min, max, greedy, check, pre, x);
      }
    }

    /** The required iterations, then the others. */
    method WrapRequired(start: nat, len: nat, min: nat, max: nat, greedy: bool, check: bool, ghost pre: seq<Byte>,
        ghost x: seq<Instr>)
      requires start == |pre| && AllValid(x) && byteCode == pre + EncodeAll(x) && len == Size(x) && min >= 1
      requires AllValid((if min == 1 then x else Exactly(x, min)) + Rest(x, min, max, greedy, check))
      modifies this`byteCode
      ensures byteCode == pre + EncodeAll((if min == 1 then x else Exactly(x, min)) + Rest(x, min, max, greedy, check))
    {
      hide EncodeAll, Size, AllValid, Rest, Exactly;
      ghost var y, z := if min == 1 then x else Exactly(x, min), Rest(x, min, max, greedy, check);
      ValidSplit(y, z);
      EncodeAppend(y, z);
      var at := start;
      if min != 1 {
        WrapExactly(start, len, min, pre, x);
        at := start + 5;
      } else {
        assert byteCode[at..at + len] == EncodeAll(x);
      }
      AppendRest(at, len, min, max, greedy, check, x);
      assert pre + EncodeAll(y) + EncodeAll(z) == pre + (EncodeAll(y) + EncodeAll(z));
    }

    /** A quantifier behind an atom that has just been emitted at start. */
    method Quantify(start: nat, cc: nat, min: nat, max: nat, greedy: bool, ghost pre: seq<Byte>, ghost x: seq<Instr>)
      requires start == |pre| && AllValid(x) && byteCode == pre + EncodeAll(x) && cc <= captureCount <= 256
      requires AllValid(QuantCode(x, cc, captureCount - cc, min, max, greedy))
      modifies this`byteCode
      ensures byteCode == pre + EncodeAll(QuantCode(x, cc, captureCount - cc, min, max, greedy))
    {
      hide EncodeAll, Size, AllValid, CheckAdvance, SimpleCount, GenericLoop, SimpleLoop;
      var len := |byteCode| - start;
      CodeHere(pre, x);
      var check := false;
      if greedy {
        if max > 0 {
          var count := IsSimpleQuantifier(byteCode, start, len, x);
          if count > 0 {
            WrapSimple(start, min, max, count, pre, x);
            return;
          }
        }
        var r := CheckAdvanceScan(byteCode, start, len, x);
        check := r == 0;
      }
      WrapGeneric(start, len, cc, min, max, greedy, check, pre, x);
    }

    // ----- terms -----

    /** A character class; refused if it has too many ranges. */
    method EmitRange(points: seq<nat>) returns (ok: bool)
      requires ClassPoints(points)
      modifies this`byteCode
      ensures ok == ClassInstr(points).Some?
      ensures ok ==>
          ValidInstr(ClassInstr(points).value) && byteCode == old(byteCode) + Encode(ClassInstr(points).value)
    {
      hide Encode, ValidInstr, PairsOf, ClassPoints, ClassAccepts;
      var len := |points| / 2;
      if len >= 65535 {
        return false;
      }
      ok := true;
      ClassExact(points, ClassInstr(points).value, 0);
      if len == 0 {
        var pos := EmitOpU32(2, -1);
        AllOnes();
        EncodeWord(Char32(0xffff_ffff));
        return;
      }
      var high := points[|points| - 1];
      if high == 0xffff_ffff {
        high := points[|points| - 2];
      }
      if high <= 0xffff {
        EncodeRange(PairsOf(points, 0xffff));
        PutByte(21);
        PutU16(len);
        PutPairs16(points);
      } else {
        EncodeRange32(PairsOf(points, 0xffff_fffe));
        PutByte(22);
        PutU16(len);
        PutPairs32(points);
      }
    }

    method PutPairs16(points: seq<nat>)
      requires ClassPoints(points)
      modifies this`byteCode
      ensures byteCode == old(byteCode) + Pairs16(PairsOf(points, 0xffff))
    {
      hide Pairs16, PairsOf, U16;
      ghost var p := PairsOf(points, 0xffff);
      var i := 0;
      NoPairs();
      assert p[..0] == [];
      while i < |points|
        invariant 0 <= i <= |points| && i % 2 == 0 && |points| % 2 == 0
        invariant byteCode == old(byteCode) + Pairs16(p[..i / 2])
      {
        PairIs(points, i / 2, 0xffff);
        PutU16(points[i]);
        var high := points[i + 1] - 1;
        if high == 0xffff_fffe {
          high := 0xffff;
        }
        PutU16(high);
        assert p[..i / 2 + 1] == p[..i / 2] + [p[i / 2]];
        Pairs16Snoc(p[..i / 2], p[i / 2]);
        i := i + 2;
      }
      assert p[..|points| / 2] == p;
    }

    method PutPairs32(points: seq<nat>)
      requires ClassPoints(points)
      modifies this`byteCode
      ensures byteCode == old(byteCode) + Pairs32(PairsOf(points, 0xffff_fffe))
    {
      hide Pairs32, PairsOf, U32;
      ghost var p := PairsOf(points, 0xffff_fffe);
      var i := 0;
      NoPairs();
      assert p[..0] == [];
      while i < |points|
        invariant 0 <= i <= |points| && i % 2 == 0 && |points| % 2 == 0
        invariant byteCode == old(byteCode) + Pairs32(p[..i / 2])
      {
        PairIs(points, i / 2, 0xffff_fffe);
        PutU32(points[i]);
        PutU32(points[i + 1] - 1);
        assert p[..i / 2 + 1] == p[..i / 2] + [p[i / 2]];
        Pairs32Snoc(p[..i / 2], p[i / 2]);
        i := i + 2;
      }
      assert p[..|points| / 2] == p;
    }

    /** Terms of one instruction. */
    method EmitTerm(r: Re) returns (ok: bool)
      requires Parsed(r) && (IsLeaf(r) || r.Empty?)
      modifies this`byteCode
      ensures ok == WellFormed(r)
      ensures ok ==> Emitted(r, captureCount, old(byteCode), byteCode)
    {
      hide Encode, ValidInstr, ClassInstr, ClassPoints, EncodeAll, AllValid;
      ok := true;
      ghost var b := byteCode;
      match r
      case Empty => TermNone(captureCount, b);
      case Lit(c) =>
        TermLit(c);
        if c <= 0xffff {
          PutByte(1);
          PutU16(c);
          assert b + [1] + U16(c) == b + ([1] + U16(c));
        } else {
          var pos := EmitOpU32(2, c);
        }
        TermOne(r, LitInstr(c), captureCount, b);
      case DotAll => EmitOp(4); TermPlain(r, Any, captureCount, b);
      case DotLine => EmitOp(3); TermPlain(r, Dot, captureCount, b);
      case Start => EmitOp(5); TermPlain(r, LineStart, captureCount, b);
      case End => EmitOp(6); TermPlain(r, LineEnd, captureCount, b);
      case Bound(negated) =>
        EmitOp(if negated then 18 else 17);
        TermPlain(r, if negated then NotWordBoundary else WordBoundary, captureCount, b);
      case Class(p) =>
        ok := EmitRange(p);
        if ok {
          TermOne(r, ClassInstr(p).value, captureCount, b);
        }
    }

    /**
     The code of a whole pattern, term by term. Refused exactly if it has too many groups or
     a class with too many ranges; otherwise exactly the emitted code is appended.
     */
    method Compile(r: Re) returns (ok: bool)
      requires Parsed(r) && Small(r, captureCount) && captureCount <= CAPTURE_COUNT_MAX
      modifies this
      ensures ok == (WellFormed(r) && old(captureCount) + Groups(r) <= CAPTURE_COUNT_MAX)
      ensures ok ==>
          Emitted(r, old(captureCount), old(byteCode), byteCode) && captureCount == old(captureCount) + Groups(r)
      decreases r, 1
    {
      hide Emitted, Parsed, WellFormed, Groups, Small;
      match r
      case Cat(a, b) =>
        CatParts(a, b, captureCount);
        ok := Compile(a);
        if ok {
          ghost var mid := byteCode;
          ok := Compile(b);
          if ok {
            CatEmitted(a, b, old(captureCount), old(byteCode), mid, byteCode);
          }
        }
      case Alt(a, b) => ok := CompileAlt(a, b);
      case Capture(a) => ok := CompileCapture(a);
      case Quant(a, min, max, greedy) =>
        QuantParts(a, min, max, greedy, captureCount);
        ok := CompileQuant(a, min, max, greedy);
      case Look(negated, a) =>
        LookParts(negated, a, captureCount);
        ok := CompileLook(negated, a);
      case _ =>
        TermParts(r);
        ok := EmitTerm(r);
    }

    method CompileAlt(a: Re, b: Re) returns (ok: bool)
      requires Parsed(Alt(a, b)) && Small(Alt(a, b), captureCount) && captureCount <= CAPTURE_COUNT_MAX
      modifies this
      ensures ok == (WellFormed(Alt(a, b)) && old(captureCount) + Groups(Alt(a, b)) <= CAPTURE_COUNT_MAX)
      ensures ok ==>
          Emitted(Alt(a, b), old(captureCount), old(byteCode), byteCode)
              && captureCount == old(captureCount) + Groups(Alt(a, b))
      decreases Alt(a, b), 0
    {
      hide Emitted, U32, Emit, EncodeAll, AllValid, Parsed, WellFormed, Groups, Small;
      AltParts(a, b, captureCount);
      var start := |byteCode|;
      ghost var b0, cc := byteCode, captureCount;
      ok := Compile(a);
      if !ok {
        return;
      }
      EmittedBytes(a, cc, b0, byteCode);
      ghost var ea := byteCode[start..];
      var len := |byteCode| - start;
      InsertWord(start, 9, len + 5);
      ghost var p1 := b0 + ([9] + U32(len + 5)) + ea;
      var pos := EmitOpU32(7, 0);
      ghost var p2 := byteCode;
      ok := Compile(b);
      if !ok {
        return;
      }
      EmittedBytes(b, cc + Groups(a), p2, byteCode);
      ghost var eb := byteCode[|p2|..];
      Patched(p1, 7, 0, eb);
      PatchU32(pos, |byteCode| - (pos + 4));
      AltEmitted(a, b, cc, b0, ea, eb);
      assert p1 + [7] + U32(|eb|) == p1 + ([7] + U32(|eb|));
    }

    method CompileCapture(a: Re) returns (ok: bool)
      requires Parsed(Capture(a)) && Small(Capture(a), captureCount) && captureCount <= CAPTURE_COUNT_MAX
      modifies this
      ensures ok == (WellFormed(Capture(a)) && old(captureCount) + Groups(Capture(a)) <= CAPTURE_COUNT_MAX)
      ensures ok ==>
          Emitted(Capture(a), old(captureCount), old(byteCode), byteCode)
              && captureCount == old(captureCount) + Groups(Capture(a))
      decreases Capture(a), 0
    {
      hide Emitted, Parsed, WellFormed, Groups, Small, Emit, EncodeAll, AllValid;
      CaptureParts(a, captureCount);
      if captureCount >= CAPTURE_COUNT_MAX {
        return false;
      }
      var index := captureCount;
      captureCount := captureCount + 1;
      EmitOpU8(11, index);
      ghost var b0, b1 := old(byteCode), byteCode;
      ok := Compile(a);
      if ok {
        EmittedBytes(a, index + 1, b1, byteCode);
        ghost var ea := byteCode[|b1|..];
        EmitOpU8(12, index);
        CaptureEmitted(a, index, b0, ea);
        assert byteCode == b0 + [11, index] + ea + [12, index];
      }
    }

    method CompileQuant(a: Re, min: nat, max: nat, greedy: bool) returns (ok: bool)
      requires Parsed(Quant(a, min, max, greedy)) && Small(Quant(a, min, max, greedy), captureCount)
      requires captureCount <= CAPTURE_COUNT_MAX
      modifies this
      ensures ok == (WellFormed(Quant(a, min, max, greedy)) && old(captureCount) + Groups(a) <= CAPTURE_COUNT_MAX)
      ensures ok ==>
          Emitted(Quant(a, min, max, greedy), old(captureCount), old(byteCode), byteCode)
              && captureCount == old(captureCount) + Groups(a)
      decreases Quant(a, min, max, greedy), 0
    {
      hide Emit, AllValid, EncodeAll, QuantCode, Parsed, WellFormed, Groups, Small;
      QuantParts(a, min, max, greedy, captureCount);
      var start := |byteCode|;
      var cc := captureCount;
      ghost var b0 := byteCode;
      ok := Compile(a);
      if ok {
        EmitQuant(a, min, max, greedy, cc);
        EmitFits(Quant(a, min, max, greedy), cc);
        Quantify(start, cc, min, max, greedy, b0, Emit(a, cc));
      }
    }

    method CompileLook(negated: bool, a: Re) returns (ok: bool)
      requires Parsed(Look(negated, a)) && Small(Look(negated, a), captureCount) && captureCount <= CAPTURE_COUNT_MAX
      modifies this
      ensures ok == (WellFormed(Look(negated, a)) && old(captureCount) + Groups(a) <= CAPTURE_COUNT_MAX)
      ensures ok ==>
          Emitted(Look(negated, a), old(captureCount), old(byteCode), byteCode)
              && captureCount == old(captureCount) + Groups(a)
      decreases Look(negated, a), 0
    {
      hide Emitted, U32, Emit, EncodeAll, AllValid, Parsed, WellFormed, Groups, Small;
      LookParts(negated, a, captureCount);
      ghost var b0, cc := byteCode, captureCount;
      var op: Byte := if negated then 24 else 23;
      var pos := EmitOpU32(op, 0);
      ghost var b1 := byteCode;
      ok := Compile(a);
      if ok {
        EmittedBytes(a, cc, b1, byteCode);
        ghost var ea := byteCode[|b1|..];
        EmitOp(10);
        assert byteCode == b1 + (ea + [10]);
        Patched(b0, op, 0, ea + [10]);
        PatchU32(pos, |byteCode| - (pos + 4));
        LookEmitted(negated, a, cc, b0, ea);
        assert byteCode == b0 + ([op] + U32(|ea| + 1)) + ea + [10];
      }
    }

    /** Code that tries every start position. */
    method EmitPrelude(sticky: bool)
      modifies this`byteCode
      ensures AllValid(Prelude(sticky)) && byteCode == old(byteCode) + EncodeAll(Prelude(sticky))
    {
      hide U32, AllValid, EncodeAll;
      PreludeBytes();
      ghost var b := byteCode;
      if !sticky {
        var p := EmitOpU32(8, 6);
        EmitOp(4);
        p := EmitOpU32(7, -11);
        assert byteCode == b + (([8] + U32(6)) + [4] + ([7] + U32(-11)));
      } else {
        assert b + [] == b;
      }
    }

    /** The program without its header. */
    method EmitProgram(r: Re, sticky: bool) returns (ok: bool)
      requires Parsed(r) && Small(r, 1) && captureCount == 1
      modifies this
      ensures ok == Accepted(r)
      ensures ok ==>
          AllValid(Program(r, sticky)) && byteCode == old(byteCode) + EncodeAll(Program(r, sticky))
              && captureCount == 1 + Groups(r)
    {
      hide AllValid, EncodeAll, Emit, WellFormed, Groups, Small, Parsed, Prelude, Program;
      EmitPrelude(sticky);
      EmitOpU8(11, 0);
      ok := Compile(r);
      if ok {
        EmitOpU8(12, 0);
        EmitOp(10);
        ProgramBytes(r, sticky);
        assert byteCode
            == old(byteCode) + (EncodeAll(Prelude(sticky)) + [11, 0] + EncodeAll(Emit(r, 1)) + [12, 0] + [10]);
      }
    }

    /**
     Flags, number of captures, number of counters and length, then the program. Refused
     exactly if the pattern is, or if its loops are nested too deeply.
     */
    method CompileProgram(r: Re, flags: Byte) returns (ok: bool)
      requires Parsed(r) && Small(r, 1)
      modifies this
      ensures ok == (Accepted(r) && Levels(r, 1) <= STACK_SIZE_MAX)
      ensures ok ==> Compiled(r, flags, byteCode)
    {
      hide AllValid, EncodeAll, Emit, WellFormed, Groups, Small, Parsed, U32, MaxDepth, Program, CodeAt, Sticky;
      byteCode := [flags, 0, 0];
      PutU32(0);
      captureCount := 1;
      ok := EmitProgram(r, Sticky(flags));
      if ok {
        ghost var p := Program(r, Sticky(flags));
        assert byteCode[7..] == EncodeAll(p);
        CodeAlone(byteCode[7..], p);
        NeverNegative(r, Sticky(flags));
        ProgramNesting(r, Sticky(flags));
        var stack := ComputeStackSize(byteCode[7..], |byteCode| - 7, p);
        if stack < 0 {
          return false;
        }
        FillHeader(stack);
      }
    }

    method FillHeader(stack: Byte)
      requires |byteCode| >= 7 && captureCount < 256
      modifies this`byteCode
      ensures |byteCode| == |old(byteCode)| && byteCode[7..] == old(byteCode)[7..]
      ensures byteCode[0] == old(byteCode)[0] && byteCode[1] == captureCount && byteCode[2] == stack
      ensures byteCode[3..7] == U32(|byteCode| - 7)
    {
      hide U32;
      byteCode := byteCode[1 := captureCount];
      byteCode := byteCode[2 := stack];
      PatchU32(3, |byteCode| - 7);
    }
  }

  predicate Sticky(flags: Byte) {
    flags / 32 % 2 == 1
  }

  predicate Accepted(r: Re) {
    WellFormed(r) && 1 + Groups(r) <= CAPTURE_COUNT_MAX
  }

  /** The output of the compiler: header and program. */
  ghost predicate Compiled(r: Re, flags: Byte, b: seq<Byte>) {
    && WellFormed(r) && |b| >= 7
    && b[0] == flags && b[1] == 1 + Groups(r) && b[2] == Levels(r, 1)
    && AllValid(Program(r, Sticky(flags))) && b[3..7] == U32(Size(Program(r, Sticky(flags))))
    && b[7..] == EncodeAll(Program(r, Sticky(flags)))
  }

  lemma PreludeBytes()
    ensures AllValid(Prelude(true)) && EncodeAll(Prelude(true)) == []
    ensures AllValid(Prelude(false)) && EncodeAll(Prelude(false)) == ([8] + U32(6)) + [4] + ([7] + U32(-11))
  {
    hide U32, AllValid, EncodeAll;
    NoBytes();
    var i, j, k := SplitGotoFirst(6), Any, Goto(-11);
    EncodeOne(i);
    EncodeSnoc([i], j);
    EncodeSnoc([i] + [j], k);
    assert [i] + [j] + [k] == Prelude(false);
    EncodeWord(i);
    EncodeWord(k);
    assert Encode(j) == [4];
  }

  lemma ProgramBytes(r: Re, sticky: bool)
    requires WellFormed(r) && AllValid(Prelude(sticky)) && AllValid(Emit(r, 1))
    ensures AllValid(Program(r, sticky))
    ensures EncodeAll(Program(r, sticky))
        == EncodeAll(Prelude(sticky)) + [11, 0] + EncodeAll(Emit(r, 1)) + [12, 0] + [10]
  {
    hide AllValid, EncodeAll, Emit, WellFormed, Prelude;
    var i, j, x := SaveStart(0), SaveEnd(0), Emit(r, 1);
    var p := Prelude(sticky) + [i];
    EncodeSnoc(Prelude(sticky), i);
    EncodeAppend(p, x);
    EncodeSnoc(p + x, j);
    EncodeSnoc(p + x + [j], Match);
    assert p + x + [j] + [Match] == Program(r, sticky);
    assert Encode(i) == [11, 0] && Encode(j) == [12, 0] && Encode(Match) == [10];
  }

  lemma CodeAlone(b: seq<Byte>, p: seq<Instr>)
    requires AllValid(p) && b == EncodeAll(p)
    ensures CodeAt(b, 0, p)
  {
    hide EncodeAll, AllValid;
    assert b[0..0 + |b|] == b;
  }

  lemma NeverNegative(r: Re, sticky: bool)
    requires WellFormed(r)
    ensures var p := Program(r, sticky); MaxDepth(p, |p|) >= 0 && forall k: nat | k <= |p| :: Depth(p, k) >= 0
  {
    hide Program, WellFormed, Groups, Depth;
    LinkedProgram(r, sticky);
    var p := Program(r, sticky);
    DepthStart(p);
    MaxGrows(p, 0, |p|);
    forall k: nat | k <= |p|
      ensures Depth(p, k) >= 0
    {
      if k < |p| {
        assert Fit(p, k, 1 + Groups(r));
      }
    }
  }

  /** The code of r has been appended. */
  ghost predicate Emitted(r: Re, cc: nat, before: seq<Byte>, after: seq<Byte>) {
    WellFormed(r) && AllValid(Emit(r, cc)) && after == before + EncodeAll(Emit(r, cc))
  }

  lemma EmittedBytes(r: Re, cc: nat, before: seq<Byte>, after: seq<Byte>)
    requires Emitted(r, cc, before, after)
    ensures WellFormed(r) && AllValid(Emit(r, cc)) && |before| <= |after| && after == before + after[|before|..]
    ensures after[|before|..] == EncodeAll(Emit(r, cc))
  {
    hide Emit, WellFormed, AllValid, EncodeAll;
  }

  /** What a patched operand leaves alone. */
  lemma Patched(p: seq<Byte>, op: Byte, x: int, s: seq<Byte>)
    ensures var b := p + ([op] + U32(x)) + s; b[..|p| + 1] == p + [op] && b[|p| + 5..] == s
  {
    hide U32;
  }

  lemma CatEmitted(a: Re, b: Re, cc: nat, b0: seq<Byte>, b1: seq<Byte>, b2: seq<Byte>)
    requires Emitted(a, cc, b0, b1) && Emitted(b, cc + Groups(a), b1, b2)
    ensures Emitted(Cat(a, b), cc, b0, b2)
  {
    hide Emit, AllValid, EncodeAll, Groups;
    EmitCat(a, b, cc);
    var x, y := Emit(a, cc), Emit(b, cc + Groups(a));
    EncodeAppend(x, y);
    JoinThree(b0, EncodeAll(x), EncodeAll(y));
  }

  lemma AltEmitted(a: Re, b: Re, cc: nat, b0: seq<Byte>, ea: seq<Byte>, eb: seq<Byte>)
    requires WellFormed(Alt(a, b)) && cc + Groups(Alt(a, b)) <= CAPTURE_COUNT_MAX && Small(Alt(a, b), cc)
    requires AllValid(Emit(a, cc)) && AllValid(Emit(b, cc + Groups(a)))
    requires ea == EncodeAll(Emit(a, cc)) && eb == EncodeAll(Emit(b, cc + Groups(a)))
    ensures Emitted(Alt(a, b), cc, b0, b0 + ([9] + U32(|ea| + 5)) + ea + ([7] + U32(|eb|)) + eb)
  {
    hide Emit, AllValid, EncodeAll, WellFormed, Groups, U32;
    EmitAlt(a, b, cc);
    EmitFits(Alt(a, b), cc);
    var x, y := Emit(a, cc), Emit(b, cc + Groups(a));
    var i, j := SplitNextFirst(Size(x) + 5), Goto(Size(y));
    ValidSplit([i] + x + [j], y);
    ValidLast([i] + x, j);
    ValidFirst(i, x);
    EncodeCons(i, x);
    EncodeSnoc([i] + x, j);
    EncodeAppend([i] + x + [j], y);
    EncodeWord(i);
    EncodeWord(j);
    var wi, wj := [9] + U32(|ea| + 5), [7] + U32(|eb|);
    assert b0 + (wi + ea + wj + eb) == b0 + wi + ea + wj + eb;
  }

  lemma CaptureEmitted(a: Re, cc: nat, b0: seq<Byte>, ea: seq<Byte>)
    requires WellFormed(a) && cc < 256 && AllValid(Emit(a, cc + 1)) && ea == EncodeAll(Emit(a, cc + 1))
    ensures Emitted(Capture(a), cc, b0, b0 + [11, cc] + ea + [12, cc])
  {
    hide Emit, AllValid, EncodeAll;
    EmitCapture(a, cc);
    var x, i, j := Emit(a, cc + 1), SaveStart(cc), SaveEnd(cc);
    EncodeCons(i, x);
    EncodeSnoc([i] + x, j);
    assert Encode(i) == [11, cc] && Encode(j) == [12, cc];
    assert b0 + ([11, cc] + ea + [12, cc]) == b0 + [11, cc] + ea + [12, cc];
  }

  lemma LookEmitted(negated: bool, a: Re, cc: nat, b0: seq<Byte>, ea: seq<Byte>)
    requires WellFormed(Look(negated, a)) && cc + Groups(a) <= CAPTURE_COUNT_MAX && Small(Look(negated, a), cc)
    requires AllValid(Emit(a, cc)) && ea == EncodeAll(Emit(a, cc))
    ensures Emitted(Look(negated, a), cc, b0, b0 + ([if negated then 24 else 23] + U32(|ea| + 1)) + ea + [10])
  {
    hide Emit, AllValid, EncodeAll, WellFormed, U32;
    EmitLook(negated, a, cc);
    EmitFits(Look(negated, a), cc);
    var x := Emit(a, cc);
    var i := if negated then NegativeLookahead(Size(x) + 1) else Lookahead(Size(x) + 1);
    ValidLast([i] + x, Match);
    ValidFirst(i, x);
    EncodeCons(i, x);
    EncodeSnoc([i] + x, Match);
    EncodeWord(i);
    assert Encode(Match) == [10];
    var w: seq<Byte> := [if negated then 24 else 23] + U32(|ea| + 1);
    assert b0 + (w + ea + [10]) == b0 + w + ea + [10];
  }

  // ----- single instructions -----

  lemma AllOnes()
    ensures U32(-1) == U32(0xffff_ffff)
  {
  }

  lemma NoPairs()
    ensures Pairs16([]) == [] && Pairs32([]) == []
  {
  }

  lemma JoinThree(a: seq<Byte>, b: seq<Byte>, c: seq<Byte>)
    ensures a + (b + c) == a + b + c
  {
  }

  lemma EncodeRange(p: seq<(nat, nat)>)
    requires ValidInstr(Range(p))
    ensures Encode(Range(p)) == [21] + U16(|p|) + Pairs16(p)
  {
    hide Pairs16, U16, Operands, Encode, ValidInstr;
    RangeOperands(Range(p), p);
    EncodeParts(Range(p));
    JoinThree([21], U16(|p|), Pairs16(p));
  }

  lemma EncodeRange32(p: seq<(nat, nat)>)
    requires ValidInstr(Range32(p))
    ensures Encode(Range32(p)) == [22] + U16(|p|) + Pairs32(p)
  {
    hide Pairs32, U16, Operands, Encode, ValidInstr;
    Range32Operands(Range32(p), p);
    EncodeParts(Range32(p));
    JoinThree([22], U16(|p|), Pairs32(p));
  }

  /** A pair of a class, without the case that cannot occur. */
  lemma PairIs(p: seq<nat>, k: nat, top: nat)
    requires ClassPoints(p) && 2 * k + 1 < |p|
    ensures p[2 * k + 1] > 0
    ensures PairsOf(p, top)[k] == (p[2 * k], if p[2 * k + 1] == 0xffff_ffff then top else p[2 * k + 1] - 1)
  {
    var i := 2 * k;
    assert p[i] < p[i + 1];
  }

  lemma {:induction false} Pairs16Snoc(p: seq<(nat, nat)>, q: (nat, nat))
    ensures Pairs16(p + [q]) == Pairs16(p) + U16(q.0) + U16(q.1)
    decreases |p|
  {
    hide U16;
    if p == [] {
      assert [q][1..] == [];
    } else {
      assert (p + [q])[1..] == p[1..] + [q];
      Pairs16Snoc(p[1..], q);
    }
  }

  lemma {:induction false} Pairs32Snoc(p: seq<(nat, nat)>, q: (nat, nat))
    ensures Pairs32(p + [q]) == Pairs32(p) + U32(q.0) + U32(q.1)
    decreases |p|
  {
    hide U32;
    if p == [] {
      assert [q][1..] == [];
    } else {
      assert (p + [q])[1..] == p[1..] + [q];
      Pairs32Snoc(p[1..], q);
    }
  }

  lemma TermNone(cc: nat, b: seq<Byte>)
    ensures Emitted(Empty, cc, b, b)
  {
    assert b + [] == b;
  }

  lemma TermLit(c: nat)
    requires c < 0x11_0000
    ensures ValidInstr(LitInstr(c)) && Encode(LitInstr(c)) == if c <= 0xffff then [1] + U16(c) else [2] + U32(c)
  {
    hide U16, U32;
  }

  lemma TermOne(r: Re, i: Instr, cc: nat, b: seq<Byte>)
    requires WellFormed(r) && Emit(r, cc) == [i] && ValidInstr(i)
    ensures Emitted(r, cc, b, b + Encode(i))
  {
    hide Encode, ValidInstr;
    EncodeOne(i);
  }

  lemma TermPlain(r: Re, i: Instr, cc: nat, b: seq<Byte>)
    requires WellFormed(r) && Emit(r, cc) == [i] && InstrSize(i) == 1
    ensures Emitted(r, cc, b, b + [Opcode(i)])
  {
    hide Emit, WellFormed, Emitted;
    assert ValidInstr(i);
    TermOne(r, i, cc, b);
    assert Encode(i) == [Opcode(i)];
  }

  lemma AllAppended(c: seq<Byte>, w: seq<Byte>, m: seq<Byte>, b: seq<Byte>, g: seq<Byte>)
    ensures c + w + m + b + g == c + (w + m + b + g) && w + [] == w && c + w + [] == c + w
  {
  }

  lemma NoBytes()
    ensures AllValid([]) && EncodeAll([]) == []
  {
  }

  lemma ResetBytes(cc: nat, n: nat)
    requires cc + n <= 256
    ensures AllValid(Reset(cc, n)) && EncodeAll(Reset(cc, n)) == if n == 0 then [] else [13, cc, cc + n - 1]
  {
    if n > 0 {
      var i := SaveReset(cc, cc + n - 1);
      EncodeOne(i);
      assert Encode(i) == [13] + [cc, cc + n - 1];
    }
  }

  lemma ValidSplit(x: seq<Instr>, y: seq<Instr>)
    requires AllValid(x + y)
    ensures AllValid(x) && AllValid(y)
  {
    hide ValidInstr;
    assert forall k | 0 <= k < |x| :: (x + y)[k] == x[k];
    assert forall k | 0 <= k < |y| :: (x + y)[|x| + k] == y[k];
  }

  lemma CodeHere(pre: seq<Byte>, x: seq<Instr>)
    requires AllValid(x)
    ensures CodeAt(pre + EncodeAll(x), |pre|, x)
  {
    hide EncodeAll;
    var b := EncodeAll(x);
    assert (pre + b)[|pre|..|pre| + |b|] == b;
  }

  // ----- joining pieces -----

  lemma JoinSimple(pre: seq<Byte>, skip: int, min: int, max: int, count: int, gap: seq<Byte>, b: seq<Byte>)
    requires |gap| == 17 && skip == |b| + 1
    ensures (((pre + ([28] + U32(skip))) + U32(min)) + U32(max)) + U32(count) + gap[5..][4..][4..][4..] + (b + [10])
         == pre + (([28] + (U32(|b| + 1) + U32(min) + U32(max) + U32(count))) + (b + [10]))
  {
    hide U32;
    assert gap[5..][4..][4..][4..] == [];
  }

  lemma JoinStarChecked(pre: seq<Byte>, op: Byte, len: int, gap: seq<Byte>, b: seq<Byte>)
    requires |gap| == 6
    ensures (pre + ([op] + U32(len + 6)) + [25]) + gap[5..][1..] + b + ([26] + U32(-(len + 11)))
         == pre + ([op] + U32(len + 6) + [25] + b + ([26] + U32(-(len + 11))))
  {
    hide U32;
    assert gap[5..][1..] == [];
  }

  lemma JoinStar(pre: seq<Byte>, op: Byte, len: int, gap: seq<Byte>, b: seq<Byte>)
    requires |gap| == 5
    ensures (pre + ([op] + U32(len + 5))) + gap[5..] + b + ([7] + U32(-(len + 10)))
         == pre + ([op] + U32(len + 5) + b + ([7] + U32(-(len + 10))))
  {
    hide U32;
    assert gap[5..] == [];
  }

  lemma JoinUpTo(pre: seq<Byte>, n: int, op: Byte, len: int, gap: seq<Byte>, b: seq<Byte>)
    requires |gap| == 10
    ensures ((pre + ([15] + U32(n))) + ([op] + U32(len + 5))) + gap[5..][5..] + b + ([14] + U32(-(len + 10))) + [16]
         == pre + ([15] + U32(n) + ([op] + U32(len + 5)) + b + ([14] + U32(-(len + 10))) + [16])
  {
    hide U32;
    assert gap[5..][5..] == [];
  }

  // ----- the bytes of loops -----

  lemma {:induction false} SimpleBytes(x: seq<Instr>, min: nat, max: nat, count: nat)
    requires AllValid(x) && SimpleCount(x) == count && AllValid(SimpleLoop(x, min, max))
    ensures var b := EncodeAll(x);
      EncodeAll(SimpleLoop(x, min, max)) == ([28] + (U32(|b| + 1) + U32(min) + U32(max) + U32(count))) + (b + [10])
  {
    hide EncodeAll, AllValid, U32, SimpleCount, Size;
    var i := SimpleGreedyQuant(Size(x) + 1, min, max, count);
    assert SimpleLoop(x, min, max) == [i] + (x + [Match]);
    ValidFirst(i, x + [Match]);
    EncodeSnoc(x, Match);
    EncodeCons(i, x + [Match]);
    QuantBytes(i);
    assert Encode(Match) == [10];
  }

  lemma ValidFirst(i: Instr, t: seq<Instr>)
    requires AllValid([i] + t)
    ensures ValidInstr(i) && AllValid(t)
  {
    hide ValidInstr;
    assert ([i] + t)[0] == i;
    assert forall k | 0 <= k < |t| :: ([i] + t)[k + 1] == t[k];
  }

  lemma ValidLast(t: seq<Instr>, i: Instr)
    requires AllValid(t + [i])
    ensures ValidInstr(i) && AllValid(t)
  {
    hide ValidInstr;
    assert (t + [i])[|t|] == i;
    assert forall k | 0 <= k < |t| :: (t + [i])[k] == t[k];
  }

  lemma QuantBytes(i: Instr)
    requires i.SimpleGreedyQuant? && ValidInstr(i)
    ensures Encode(i) == [28] + (U32(i.next) + U32(i.min) + U32(i.max) + U32(i.count))
  {
  }

  lemma {:induction false} StarBytes(x: seq<Instr>, greedy: bool, len: nat)
    requires AllValid(x) && len == Size(x) && AllValid(Star(x, greedy, false))
    ensures EncodeAll(Star(x, greedy, false))
         == [if greedy then 9 else 8] + U32(len + 5) + EncodeAll(x) + ([7] + U32(-(len as int + 10)))
  {
    hide EncodeAll, AllValid, U32, Size;
    var i, j := Split(greedy, len + 5), Goto(-(len as int + 10));
    assert Star(x, greedy, false) == [i] + (x + [j]);
    ValidFirst(i, x + [j]);
    ValidLast(x, j);
    EncodeSnoc(x, j);
    EncodeCons(i, x + [j]);
    EncodeWord(i);
    EncodeWord(j);
  }

  /** An atom behind two instructions and before one. */
  lemma {:induction false} AroundBytes(i: Instr, p: Instr, x: seq<Instr>, j: Instr)
    requires AllValid(x) && AllValid([i] + ([p] + (x + [j])))
    ensures ValidInstr(i) && ValidInstr(p) && ValidInstr(j)
    ensures EncodeAll([i] + ([p] + (x + [j]))) == Encode(i) + Encode(p) + EncodeAll(x) + Encode(j)
  {
    hide EncodeAll, AllValid, Encode, ValidInstr;
    var y := x + [j];
    ValidFirst(i, [p] + y);
    ValidFirst(p, y);
    ValidLast(x, j);
    EncodeSnoc(x, j);
    EncodeCons(p, y);
    EncodeCons(i, [p] + y);
    JoinFour(Encode(i), Encode(p), EncodeAll(x), Encode(j));
  }

  lemma JoinFour(a: seq<Byte>, b: seq<Byte>, c: seq<Byte>, d: seq<Byte>)
    ensures a + (b + (c + d)) == a + b + c + d
  {
  }

  lemma {:induction false} CheckedStarBytes(x: seq<Instr>, greedy: bool, len: nat)
    requires AllValid(x) && len == Size(x) && AllValid(Star(x, greedy, true))
    ensures EncodeAll(Star(x, greedy, true))
         == [if greedy then 9 else 8] + U32(len + 6) + [25] + EncodeAll(x) + ([26] + U32(-(len as int + 11)))
  {
    var i, j := Split(greedy, len + 6), BneCharPos(-(len as int + 11));
    hide EncodeAll, AllValid, U32, Size, Encode, Star, ValidInstr;
    CheckedStarIs(x, greedy);
    AroundBytes(i, PushCharPos, x, j);
    PushByte();
    EncodeWord(i);
    EncodeWord(j);
  }

  lemma CheckedStarIs(x: seq<Instr>, greedy: bool)
    ensures Star(x, greedy, true)
         == [Split(greedy, Size(x) + 6)] + ([PushCharPos] + (x + [BneCharPos(-(Size(x) + 11))]))
  {
    hide Size;
  }

  lemma PushByte()
    ensures Encode(PushCharPos) == [25]
  {
  }

  lemma {:induction false} UpToBytes(x: seq<Instr>, n: nat, greedy: bool, len: nat)
    requires AllValid(x) && len == Size(x) && AllValid(UpTo(x, n, greedy))
    ensures var b, op := EncodeAll(x), if greedy then 9 else 8;
      EncodeAll(UpTo(x, n, greedy))
          == [15] + U32(n) + ([op] + U32(len + 5)) + b + ([14] + U32(-(len as int + 10))) + [16]
  {
    hide EncodeAll, AllValid, U32, Size;
    var h, i, j := PushI32(n), Split(greedy, len + 5), Loop(-(len as int + 10));
    assert UpTo(x, n, greedy) == [h] + ([i] + (x + [j] + [Drop]));
    ValidFirst(h, [i] + (x + [j] + [Drop]));
    ValidFirst(i, x + [j] + [Drop]);
    ValidLast(x + [j], Drop);
    ValidLast(x, j);
    EncodeSnoc(x, j);
    EncodeSnoc(x + [j], Drop);
    EncodeCons(i, x + [j] + [Drop]);
    EncodeCons(h, [i] + (x + [j] + [Drop]));
    EncodeWord(h);
    EncodeWord(i);
    EncodeWord(j);
    assert Encode(Drop) == [16];
  }

  lemma {:induction false} ExactlyBytes(x: seq<Instr>, n: nat, len: nat)
    requires AllValid(x) && len == Size(x) && AllValid(Exactly(x, n))
    ensures EncodeAll(Exactly(x, n)) == [15] + U32(n) + EncodeAll(x) + ([14] + U32(-(len as int + 5))) + [16]
  {
    hide EncodeAll, AllValid, U32, Size;
    var h, j := PushI32(n), Loop(-(len as int + 5));
    assert Exactly(x, n) == [h] + (x + [j] + [Drop]);
    ValidFirst(h, x + [j] + [Drop]);
    ValidLast(x + [j], Drop);
    ValidLast(x, j);
    EncodeSnoc(x, j);
    EncodeSnoc(x + [j], Drop);
    EncodeCons(h, x + [j] + [Drop]);
    EncodeWord(h);
    EncodeWord(j);
    assert Encode(Drop) == [16];
  }
}
