/** The compiler's linear scans over emitted bytes. */
module ReScan {
  import opened Basics
  import opened ReCode
  import opened ReSyntax
  import opened ReStack
  import opened ReSafety

  /** The fixed part of an instruction's size, by opcode. */
  function OpSize(op: Byte): nat {
    if op == 1 || op == 13 || op == 21 || op == 22 then 3
    else if op == 2 || op == 7 || op == 8 || op == 9 || op == 14 || op == 15 || op == 23 || op == 24 || op == 26 then 5
    else if op == 11 || op == 12 || op == 19 || op == 20 then 2
    else if op == 28 then 17
    else 1
  }

  /** The size of the instruction at pc, as the scans compute it. */
  function SizeAt(code: seq<Byte>, pc: nat): nat
    requires pc < |code|
  {
    var op := code[pc];
    if op == 21 && pc + 3 <= |code| then 3 + GetU16(code, pc + 1) * 4
    else if op == 22 && pc + 3 <= |code| then 3 + GetU16(code, pc + 1) * 8
    else OpSize(op)
  }

  lemma {:induction false} HeadBytes(code: seq<Byte>, pc: nat, i: Instr)
    requires ValidInstr(i) && Has(code, pc, Encode(i))
    ensures pc + InstrSize(i) <= |code| && code[pc] == Opcode(i) && SizeAt(code, pc) == InstrSize(i)
  {
    hide Has, U16, U32, GetU16, Pairs16, Pairs32, ValidPairs, Operands;
    HasFits(code, pc, Encode(i));
    EncodeParts(i);
    HasFirst(code, pc, Opcode(i), Operands(i));
    match i
    case Range(p) => {
      RangeOperands(i, p);
      HasSplit(code, pc + 1, U16(|p|), Pairs16(p));
      U16Back(code, pc + 1, |p|);
    }
    case Range32(p) => {
      Range32Operands(i, p);
      HasSplit(code, pc + 1, U16(|p|), Pairs32(p));
      U16Back(code, pc + 1, |p|);
    }
    case _ =>
  }

  lemma RangeOperands(i: Instr, p: seq<(nat, nat)>)
    requires i == Range(p) && ValidInstr(i)
    ensures Operands(i) == U16(|p|) + Pairs16(p) && |p| < 65536
  {
    hide U16, U32, Pairs16, Pairs32;
  }

  lemma Range32Operands(i: Instr, p: seq<(nat, nat)>)
    requires i == Range32(p) && ValidInstr(i)
    ensures Operands(i) == U16(|p|) + Pairs32(p) && |p| < 65536
  {
    hide U16, U32, Pairs16, Pairs32;
  }

  /** The next instruction of a scan over s, at instruction k. */
  lemma {:induction false} ScanAt(code: seq<Byte>, start: nat, s: seq<Instr>, k: nat)
    requires CodeAt(code, start, s) && k < |s|
    ensures var pc := start + Addr(s, k);
      && pc < |code| && code[pc] == Opcode(s[k]) && SizeAt(code, pc) == InstrSize(s[k])
      && pc + InstrSize(s[k]) == start + Addr(s, k + 1)
      && start + Addr(s, k + 1) <= start + Size(s)
  {
    hide Has, Encode, ValidInstr, Size, SizeAt;
    AddrIs(s, k);
    AddrIs(s, k + 1);
    var rest := s[k + 1..];
    assert s == s[..k] + ([s[k]] + rest);
    CodeSplit(code, start, s[..k], [s[k]] + rest);
    CodeSplit(code, start + Size(s[..k]), [s[k]], rest);
    EncodeOne(s[k]);
    HeadBytes(code, start + Size(s[..k]), s[k]);
    assert s == s[..k + 1] + rest;
    SizeAppend(s[..k + 1], rest);
  }

  lemma EncodeOne(i: Instr)
    ensures AllValid([i]) <==> ValidInstr(i)
    ensures ValidInstr(i) ==> EncodeAll([i]) == Encode(i)
  {
    hide ValidInstr, Encode;
    assert [i][0] == i && [i][1..] == [];
    if ValidInstr(i) {
      assert EncodeAll([i]) == Encode(i) + EncodeAll([]);
      assert Encode(i) + [] == Encode(i);
    }
  }

  /** The number of characters of a simple atom, -1 if it is not simple. */
  method IsSimpleQuantifier(code: seq<Byte>, start: nat, len: nat, ghost s: seq<Instr>) returns (count: int)
    requires CodeAt(code, start, s) && len == Size(s)
    ensures count == SimpleCount(s)
  {
    hide CodeAt, Size, SizeAt, SimpleCount, Addr;
    count := 0;
    var pos := 0;
    ghost var k := 0;
    CountStart(s);
    ScanEnds(s, 0);
    while pos < len
      invariant 0 <= k <= |s| && pos == Addr(s, k) && 0 <= pos <= len && (k == |s| <==> pos == len)
      invariant count >= 0 && SimpleCount(s) == if SimpleCount(s[k..]) < 0 then -1 else count + SimpleCount(s[k..])
      decreases len - pos
    {
      ScanAt(code, start, s, k);
      ScanEnds(s, k + 1);
      CountStep(s, k);
      var op := code[start + pos];
      if op == 21 || op == 22 || op == 1 || op == 2 || op == 3 || op == 4 {
        count := count + 1;
      } else if !(op == 5 || op == 6 || op == 17 || op == 18) {
        return -1;
      }
      pos := pos + SizeAt(code, start + pos);
      k := k + 1;
    }
    assert s[k..] == [];
    CountNothing();
  }

  lemma CountNothing()
    ensures SimpleCount([]) == 0
  {
  }

  lemma CountStart(s: seq<Instr>)
    ensures s[0..] == s && Addr(s, 0) == 0 && SimpleCount(s) >= -1
  {
    assert s[0..] == s;
    CountLow(s);
  }

  lemma {:induction false} CountLow(s: seq<Instr>)
    ensures SimpleCount(s) >= -1
    decreases |s|
  {
    if s != [] {
      CountLow(s[1..]);
    }
  }

  /** Only the last instruction ends at the end. */
  lemma {:induction false} ScanEnds(s: seq<Instr>, k: nat)
    requires k <= |s|
    ensures Addr(s, k) <= Size(s) && (k == |s| <==> Addr(s, k) == Size(s))
  {
    hide Addr, Size;
    AddrIs(s, k);
    assert s == s[..k] + s[k..];
    SizeAppend(s[..k], s[k..]);
    if k < |s| {
      SizeSome(s[k..]);
    } else {
      assert s[..k] == s;
    }
  }

  lemma SizeSome(s: seq<Instr>)
    requires s != []
    ensures Size(s) >= 1
  {
  }

  lemma CountStep(s: seq<Instr>, k: nat)
    requires k < |s|
    ensures var n, op := SimpleCount(s[k + 1..]), Opcode(s[k]);
      SimpleCount(s[k..]) == if op == 21 || op == 22 || op == 1 || op == 2 || op == 3 || op == 4
          then (if n < 0 then -1 else 1 + n)
                             else if op == 5 || op == 6 || op == 17 || op == 18 then n else -1
  {
    assert s[k..][1..] == s[k + 1..] && s[k..][0] == s[k];
    CountLow(s[k + 1..]);
  }

  /** 1 if the code certainly advances, 0 if not; there are no back references in this model. */
  method CheckAdvanceScan(code: seq<Byte>, start: nat, len: nat, ghost s: seq<Instr>) returns (ret: int)
    requires CodeAt(code, start, s) && len == Size(s)
    ensures ret == if CheckAdvance(s) then 1 else 0
  {
    hide CodeAt, Size, SizeAt, CheckAdvance, Addr;
    ret := -2;
    var pos := 0;
    ghost var k := 0;
    CountStart(s);
    ScanEnds(s, 0);
    while pos < len
      invariant 0 <= k <= |s| && pos == Addr(s, k) && 0 <= pos <= len && (k == |s| <==> pos == len)
      invariant ret == -2 ==> CheckAdvance(s) == CheckAdvance(s[k..])
      invariant ret != -2 ==> ret == if CheckAdvance(s) then 1 else 0
      decreases len - pos
    {
      ScanAt(code, start, s, k);
      ScanEnds(s, k + 1);
      AdvanceStep(s, k);
      var op := code[start + pos];
      if op == 21 || op == 22 || op == 1 || op == 2 || op == 3 || op == 4 {
        if ret == -2 {
          ret := 1;
        }
      } else if op == 5 || op == 6 || op == 15 || op == 25 || op == 16 || op == 17 || op == 18 || op == 11 || op == 12
          || op == 13 {
      } else {
        if ret == -2 {
          ret := 0;
        }
      }
      pos := pos + SizeAt(code, start + pos);
      k := k + 1;
    }
    if ret == -2 {
      assert s[k..] == [];
      AdvanceNothing();
      ret := 0;
    }
  }

  lemma AdvanceNothing()
    ensures !CheckAdvance([])
  {
  }

  lemma AdvanceStep(s: seq<Instr>, k: nat)
    requires k < |s|
    ensures var op := Opcode(s[k]);
      CheckAdvance(s[k..]) == if op == 21 || op == 22 || op == 1 || op == 2 || op == 3 || op == 4 then true
                              else if op == 5 || op == 6 || op == 15 || op == 25 || op == 16 || op == 17 || op == 18
                                  || op == 11 || op == 12 || op == 13
                                   then CheckAdvance(s[k + 1..]) else false
  {
    assert s[k..][1..] == s[k + 1..] && s[k..][0] == s[k];
  }

  /** More nested counters than this are refused. */
  const STACK_SIZE_MAX: nat := 255

  /** The largest number of counters, -1 if there are too many. */
  method ComputeStackSize(code: seq<Byte>, len: nat, ghost s: seq<Instr>) returns (max: int)
    requires CodeAt(code, 0, s) && len == Size(s)
    requires forall k: nat | k <= |s| :: Depth(s, k) >= 0
    ensures max == if MaxDepth(s, |s|) <= STACK_SIZE_MAX then MaxDepth(s, |s|) else -1
  {
    hide CodeAt, Size, SizeAt, Addr, Depth, MaxDepth;
    var size := 0;
    max := 0;
    var pos := 0;
    ghost var k := 0;
    CountStart(s);
    ScanEnds(s, 0);
    DepthStart(s);
    while pos < len
      invariant 0 <= k <= |s| && pos == Addr(s, k) && 0 <= pos <= len && (k == |s| <==> pos == len)
      invariant size == Depth(s, k) && max == MaxDepth(s, k) <= STACK_SIZE_MAX
      decreases len - pos
    {
      ScanAt(code, 0, s, k);
      ScanEnds(s, k + 1);
      DepthStep(s, k);
      MaxGrows(s, k + 1, |s|);
      var op := code[pos];
      if op == 15 || op == 25 {
        size := size + 1;
        if size > max {
          if size > STACK_SIZE_MAX {
            return -1;
          }
          max := size;
        }
      } else if op == 16 || op == 26 {
        assert size > 0;
        size := size - 1;
      }
      pos := pos + SizeAt(code, pos);
      k := k + 1;
    }
  }

  lemma DepthStart(s: seq<Instr>)
    ensures Depth(s, 0) == 0 && MaxDepth(s, 0) == 0
  {
  }

  lemma DepthStep(s: seq<Instr>, k: nat)
    requires k < |s|
    ensures var op := Opcode(s[k]);
      Depth(s, k + 1) == Depth(s, k) + if op == 15 || op == 25 then 1 else if op == 16 || op == 26 then -1 else 0
    ensures MaxDepth(s, k + 1) == if Depth(s, k + 1) > MaxDepth(s, k) then Depth(s, k + 1) else MaxDepth(s, k)
    ensures Depth(s, k) <= MaxDepth(s, k)
  {
    MaxDepthBounds(s, k, k);
  }

  lemma {:induction false} MaxGrows(s: seq<Instr>, k: nat, n: nat)
    requires k <= n <= |s|
    ensures MaxDepth(s, k) <= MaxDepth(s, n)
    decreases n
  {
    if k < n {
      MaxGrows(s, k, n - 1);
    }
  }
}
