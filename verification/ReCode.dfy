/** Regular expression bytecode: instructions, their bytes, and reading them back. */
module ReCode {
  import opened Basics

  /** Counts of this size stand for "unbounded". */
  const INT32_MAX: nat := 0x7fff_ffff

  datatype Instr =
    | Char(c: nat)
    | Char32(c: nat)
    | Dot
    | Any
    | LineStart
    | LineEnd
    | Goto(off: int)
    | SplitGotoFirst(off: int)
    | SplitNextFirst(off: int)
    | Match
    | SaveStart(idx: nat)
    | SaveEnd(idx: nat)
    | SaveReset(first: nat, last: nat)
    | Loop(off: int)
    | PushI32(n: nat)
    | Drop
    | WordBoundary
    | NotWordBoundary
    | Range(pairs: seq<(nat, nat)>)
    | Range32(pairs: seq<(nat, nat)>)
    | Lookahead(off: int)
    | NegativeLookahead(off: int)
    | PushCharPos
    | BneCharPos(off: int)
    | SimpleGreedyQuant(next: int, min: nat, max: nat, count: nat)

  /** Instructions that take one character. */
  predicate IsCharInstr(i: Instr) {
    i.Char? || i.Char32? || i.Dot? || i.Any? || i.Range? || i.Range32?
  }

  /** Instructions that look at the position without moving. */
  predicate IsAssertion(i: Instr) {
    i.LineStart? || i.LineEnd? || i.WordBoundary? || i.NotWordBoundary?
  }

  // ----- little-endian integers -----

  function U16(x: int): (s: seq<Byte>)
    ensures |s| == 2
  {
    [x % 256, x / 256 % 256]
  }

  function U32(x: int): (s: seq<Byte>)
    ensures |s| == 4
  {
    U16(x) + U16(x / 65536)
  }

  function GetU16(s: seq<Byte>, i: nat): (x: nat)
    requires i + 2 <= |s|
    ensures x < 65536
  {
    s[i] as int + 256 * (s[i + 1] as int)
  }

  function GetU32(s: seq<Byte>, i: nat): (x: nat)
    requires i + 4 <= |s|
    ensures x < 0x1_0000_0000
  {
    GetU16(s, i) + 65536 * GetU16(s, i + 2)
  }

  /** The same four bytes read as a signed number. */
  function GetI32(s: seq<Byte>, i: nat): int
    requires i + 4 <= |s|
  {
    var x := GetU32(s, i);
    if x >= 0x8000_0000 then x - 0x1_0000_0000 else x
  }

  predicate IsI32(x: int) {
    -0x8000_0000 <= x < 0x8000_0000
  }

  lemma U16Back(s: seq<Byte>, i: nat, x: int)
    requires Has(s, i, U16(x))
    ensures i + 2 <= |s| && GetU16(s, i) == x % 65536
  {
    assert s[i] == s[i..i + 2][0] && s[i + 1] == s[i..i + 2][1];
    LowHigh(x);
  }

  lemma LowHigh(x: int)
    ensures x % 256 + 256 * (x / 256 % 256) == x % 65536
  {
  }

  lemma U32Back(s: seq<Byte>, i: nat, x: int)
    requires Has(s, i, U32(x))
    ensures i + 4 <= |s| && GetU32(s, i) == x % 0x1_0000_0000
    ensures IsI32(x) ==> GetI32(s, i) == x
  {
    hide U16, Has, GetU16;
    HasSplit(s, i, U16(x), U16(x / 65536));
    U16Back(s, i, x);
    U16Back(s, i + 2, x / 65536);
    LowHigh16(x);
  }

  lemma LowHigh16(x: int)
    ensures x % 65536 + 65536 * (x / 65536 % 65536) == x % 0x1_0000_0000
  {
  }

  // ----- instructions as bytes -----

  function Pairs16(p: seq<(nat, nat)>): (s: seq<Byte>)
    ensures |s| == 4 * |p|
  {
    if p == [] then [] else U16(p[0].0) + U16(p[0].1) + Pairs16(p[1..])
  }

  function Pairs32(p: seq<(nat, nat)>): (s: seq<Byte>)
    ensures |s| == 8 * |p|
  {
    if p == [] then [] else U32(p[0].0) + U32(p[0].1) + Pairs32(p[1..])
  }

  function InstrSize(i: Instr): (n: nat)
    ensures n >= 1
  {
    match i
    case Char(_) => 3
    case Char32(_) => 5
    case Goto(_) => 5
    case SplitGotoFirst(_) => 5
    case SplitNextFirst(_) => 5
    case SaveStart(_) => 2
    case SaveEnd(_) => 2
    case SaveReset(_, _) => 3
    case Loop(_) => 5
    case PushI32(_) => 5
    case Range(p) => 3 + 4 * |p|
    case Range32(p) => 3 + 8 * |p|
    case Lookahead(_) => 5
    case NegativeLookahead(_) => 5
    case BneCharPos(_) => 5
    case SimpleGreedyQuant(_, _, _, _) => 17
    case _ => 1
  }

  function Opcode(i: Instr): Byte {
    match i
    case Char(_) => 1
    case Char32(_) => 2
    case Dot => 3
    case Any => 4
    case LineStart => 5
    case LineEnd => 6
    case Goto(_) => 7
    case SplitGotoFirst(_) => 8
    case SplitNextFirst(_) => 9
    case Match => 10
    case SaveStart(_) => 11
    case SaveEnd(_) => 12
    case SaveReset(_, _) => 13
    case Loop(_) => 14
    case PushI32(_) => 15
    case Drop => 16
    case WordBoundary => 17
    case NotWordBoundary => 18
    case Range(_) => 21
    case Range32(_) => 22
    case Lookahead(_) => 23
    case NegativeLookahead(_) => 24
    case PushCharPos => 25
    case BneCharPos(_) => 26
    case SimpleGreedyQuant(_, _, _, _) => 28
  }

  /** One 32-bit operand. */
  predicate IsWord(i: Instr) {
    i.Char32? || i.Goto? || i.SplitGotoFirst? || i.SplitNextFirst? || i.Loop? || i.PushI32? || i.Lookahead?
        || i.NegativeLookahead? || i.BneCharPos?
  }

  function WordOf(i: Instr): int
    requires IsWord(i)
  {
    match i
    case Char32(c) => c
    case PushI32(n) => n
    case Goto(off) => off
    case SplitGotoFirst(off) => off
    case SplitNextFirst(off) => off
    case Loop(off) => off
    case Lookahead(off) => off
    case NegativeLookahead(off) => off
    case BneCharPos(off) => off
  }

  /** Operands other than one 32-bit word. */
  function ShortOperands(i: Instr): (s: seq<Byte>)
    requires ValidInstr(i) && !IsWord(i)
    ensures 1 + |s| == InstrSize(i)
  {
    hide U16, U32, Pairs16, Pairs32;
    match i
    case Char(c) => U16(c)
    case SaveStart(idx) => [idx]
    case SaveEnd(idx) => [idx]
    case SaveReset(first, last) => [first, last]
    case Range(p) => U16(|p|) + Pairs16(p)
    case Range32(p) => U16(|p|) + Pairs32(p)
    case SimpleGreedyQuant(next, min, max, count) => U32(next) + U32(min) + U32(max) + U32(count)
    case Dot | Any | LineStart | LineEnd | Match | Drop | WordBoundary | NotWordBoundary | PushCharPos => []
  }

  function Operands(i: Instr): (s: seq<Byte>)
    requires ValidInstr(i)
    ensures 1 + |s| == InstrSize(i)
  {
    hide U32, ShortOperands;
    if IsWord(i) then U32(WordOf(i)) else ShortOperands(i)
  }

  function Encode(i: Instr): (s: seq<Byte>)
    requires ValidInstr(i)
    ensures |s| == InstrSize(i)
  {
    [Opcode(i)] + Operands(i)
  }

  predicate ValidPairs(p: seq<(nat, nat)>, limit: nat) {
    |p| < 65536 && forall k | 0 <= k < |p| :: p[k].0 < limit && p[k].1 < limit
  }

  /** Operands fit their fields. */
  predicate ValidInstr(i: Instr) {
    match i
    case Char(c) => c < 65536
    case Char32(c) => c < 0x1_0000_0000
    case Goto(off) => IsI32(off)
    case SplitGotoFirst(off) => IsI32(off)
    case SplitNextFirst(off) => IsI32(off)
    case SaveStart(idx) => idx < 256
    case SaveEnd(idx) => idx < 256
    case SaveReset(first, last) => first < 256 && last < 256
    case Loop(off) => IsI32(off)
    case PushI32(n) => n < 0x1_0000_0000
    case Range(p) => ValidPairs(p, 65536)
    case Range32(p) => ValidPairs(p, 0x1_0000_0000)
    case Lookahead(off) => IsI32(off)
    case NegativeLookahead(off) => IsI32(off)
    case BneCharPos(off) => IsI32(off)
    case SimpleGreedyQuant(next, min, max, count) => IsI32(next) && min <= INT32_MAX && max <= INT32_MAX
        && count < 0x1_0000_0000
    case _ => true
  }

  // ----- reading instructions -----

  function ReadPairs16(s: seq<Byte>, i: nat, n: nat): (p: seq<(nat, nat)>)
    requires i + 4 * n <= |s|
    ensures |p| == n
    decreases n
  {
    if n == 0 then [] else [(GetU16(s, i), GetU16(s, i + 2))] + ReadPairs16(s, i + 4, n - 1)
  }

  function ReadPairs32(s: seq<Byte>, i: nat, n: nat): (p: seq<(nat, nat)>)
    requires i + 8 * n <= |s|
    ensures |p| == n
    decreases n
  {
    if n == 0 then [] else [(GetU32(s, i), GetU32(s, i + 4))] + ReadPairs32(s, i + 8, n - 1)
  }

  function Operand(op: Byte, s: seq<Byte>, i: nat): Option<Instr>
    requires i <= |s|
  {
    if i + 4 > |s| then None
    else match op
      case 2 => Some(Char32(GetU32(s, i)))
      case 7 => Some(Goto(GetI32(s, i)))
      case 8 => Some(SplitGotoFirst(GetI32(s, i)))
      case 9 => Some(SplitNextFirst(GetI32(s, i)))
      case 14 => Some(Loop(GetI32(s, i)))
      case 15 => Some(PushI32(GetU32(s, i)))
      case 23 => Some(Lookahead(GetI32(s, i)))
      case 24 => Some(NegativeLookahead(GetI32(s, i)))
      case 26 => Some(BneCharPos(GetI32(s, i)))
      case _ => None
  }

  /** The instruction at a position, if there is one. */
  function Fetch(s: seq<Byte>, pc: nat): Option<Instr> {
    if pc >= |s| then None
    else match s[pc]
      case 1 => if pc + 3 <= |s| then Some(Char(GetU16(s, pc + 1))) else None
      case 3 => Some(Dot)
      case 4 => Some(Any)
      case 5 => Some(LineStart)
      case 6 => Some(LineEnd)
      case 10 => Some(Match)
      case 11 => if pc + 2 <= |s| then Some(SaveStart(s[pc + 1])) else None
      case 12 => if pc + 2 <= |s| then Some(SaveEnd(s[pc + 1])) else None
      case 13 => if pc + 3 <= |s| then Some(SaveReset(s[pc + 1], s[pc + 2])) else None
      case 16 => Some(Drop)
      case 17 => Some(WordBoundary)
      case 18 => Some(NotWordBoundary)
      case 21 =>
        if pc + 3 <= |s| && pc + 3 + 4 * GetU16(s, pc + 1) <= |s|
            then Some(Range(ReadPairs16(s, pc + 3, GetU16(s, pc + 1)))) else None
      case 22 =>
        if pc + 3 <= |s| && pc + 3 + 8 * GetU16(s, pc + 1) <= |s|
            then Some(Range32(ReadPairs32(s, pc + 3, GetU16(s, pc + 1)))) else None
      case 25 => Some(PushCharPos)
      case 28 =>
        if pc + 17 <= |s|
            then Some(SimpleGreedyQuant(GetI32(s, pc + 1), GetU32(s, pc + 5), GetU32(s, pc + 9), GetU32(s, pc + 13)))
                else None
      case op => Operand(op, s, pc + 1)
  }

  lemma {:induction false} Pairs16Back(s: seq<Byte>, i: nat, p: seq<(nat, nat)>)
    requires ValidPairs(p, 65536) && Has(s, i, Pairs16(p))
    ensures i + 4 * |p| <= |s| && ReadPairs16(s, i, |p|) == p
    decreases |p|
  {
    hide U16, Has, GetU16;
    assert i + 4 * |p| <= |s| by { HasFits(s, i, Pairs16(p)); }
    if p != [] {
      var a, b := U16(p[0].0), U16(p[0].1);
      HasSplit(s, i, a + b, Pairs16(p[1..]));
      HasSplit(s, i, a, b);
      U16Back(s, i, p[0].0);
      U16Back(s, i + 2, p[0].1);
      Pairs16Back(s, i + 4, p[1..]);
    }
  }

  lemma {:induction false} Pairs32Back(s: seq<Byte>, i: nat, p: seq<(nat, nat)>)
    requires ValidPairs(p, 0x1_0000_0000) && Has(s, i, Pairs32(p))
    ensures i + 8 * |p| <= |s| && ReadPairs32(s, i, |p|) == p
    decreases |p|
  {
    hide U32, Has, GetU32;
    assert i + 8 * |p| <= |s| by { HasFits(s, i, Pairs32(p)); }
    if p != [] {
      var a, b := U32(p[0].0), U32(p[0].1);
      HasSplit(s, i, a + b, Pairs32(p[1..]));
      HasSplit(s, i, a, b);
      U32Back(s, i, p[0].0);
      U32Back(s, i + 4, p[0].1);
      Pairs32Back(s, i + 8, p[1..]);
    }
  }

  /** Encoding and reading back is the identity on instructions whose operands fit. */
  lemma FetchEncoded(s: seq<Byte>, pc: nat, i: Instr)
    requires ValidInstr(i) && Has(s, pc, Encode(i))
    ensures Fetch(s, pc) == Some(i) && pc + InstrSize(i) <= |s|
  {
    hide *;
    assert |Encode(i)| == InstrSize(i);
    HasFits(s, pc, Encode(i));
    EncodeParts(i);
    HasFirst(s, pc, Opcode(i), Operands(i));
    if IsWord(i) {
      WordBack(s, pc, i);
    } else {
      OtherBack(s, pc, i);
    }
  }

  lemma EncodeParts(i: Instr)
    requires ValidInstr(i)
    ensures Encode(i) == [Opcode(i)] + Operands(i)
  {
  }

  lemma WordBack(s: seq<Byte>, pc: nat, i: Instr)
    requires ValidInstr(i) && IsWord(i) && pc < |s| && s[pc] == Opcode(i) && Has(s, pc + 1, Operands(i))
    ensures Fetch(s, pc) == Some(i)
  {
    hide Has, U32, GetU32, GetI32;
    var x := WordOf(i);
    assert Operands(i) == U32(x);
    U32Back(s, pc + 1, x);
  }

  lemma OtherBack(s: seq<Byte>, pc: nat, i: Instr)
    requires ValidInstr(i) && !IsWord(i) && pc < |s| && s[pc] == Opcode(i) && Has(s, pc + 1, Operands(i))
    ensures Fetch(s, pc) == Some(i)
  {
    hide Has, U16, U32, GetU16, GetU32, GetI32, Pairs16, Pairs32, ReadPairs16, ReadPairs32, Operand;
    match i
    case SaveStart(idx) => OneByte(s, pc + 1, [idx]);
    case SaveEnd(idx) => OneByte(s, pc + 1, [idx]);
    case SaveReset(first, last) => TwoBytes(s, pc + 1, first, last);
    case Char(c) => U16Back(s, pc + 1, c);
    case Range(p) => RangeBack(s, pc + 1, p);
    case Range32(p) => Range32Back(s, pc + 1, p);
    case SimpleGreedyQuant(next, min, max, count) => QuantBack(s, pc + 1, next, min, max, count);
    case _ =>
  }

  lemma OneByte(s: seq<Byte>, i: nat, t: seq<Byte>)
    requires |t| == 1 && Has(s, i, t)
    ensures i < |s| && s[i] == t[0]
  {
    assert s[i] == s[i..i + 1][0];
  }

  lemma TwoBytes(s: seq<Byte>, i: nat, x: Byte, y: Byte)
    requires Has(s, i, [x, y])
    ensures i + 2 <= |s| && s[i] == x && s[i + 1] == y
  {
    var t := s[i..i + 2];
    assert s[i] == t[0] && s[i + 1] == t[1];
  }

  lemma RangeBack(s: seq<Byte>, i: nat, p: seq<(nat, nat)>)
    requires ValidPairs(p, 65536) && Has(s, i, U16(|p|) + Pairs16(p))
    ensures i + 2 + 4 * |p| <= |s| && GetU16(s, i) == |p| && ReadPairs16(s, i + 2, |p|) == p
  {
    hide Has, U16, GetU16, ReadPairs16, Pairs16;
    HasSplit(s, i, U16(|p|), Pairs16(p));
    U16Back(s, i, |p|);
    Pairs16Back(s, i + 2, p);
  }

  lemma Range32Back(s: seq<Byte>, i: nat, p: seq<(nat, nat)>)
    requires ValidPairs(p, 0x1_0000_0000) && Has(s, i, U16(|p|) + Pairs32(p))
    ensures i + 2 + 8 * |p| <= |s| && GetU16(s, i) == |p| && ReadPairs32(s, i + 2, |p|) == p
  {
    hide Has, U16, GetU16, ReadPairs32, Pairs32;
    HasSplit(s, i, U16(|p|), Pairs32(p));
    U16Back(s, i, |p|);
    Pairs32Back(s, i + 2, p);
  }

  lemma QuantBack(s: seq<Byte>, i: nat, next: int, min: nat, max: nat, count: nat)
    requires IsI32(next) && min <= INT32_MAX && max <= INT32_MAX && count < 0x1_0000_0000
    requires Has(s, i, U32(next) + U32(min) + U32(max) + U32(count))
    ensures i + 16 <= |s| && GetI32(s, i) == next
    ensures GetU32(s, i + 4) == min && GetU32(s, i + 8) == max && GetU32(s, i + 12) == count
  {
    hide Has, U32, GetU32, GetI32;
    HasSplit(s, i, U32(next) + U32(min) + U32(max), U32(count));
    HasSplit(s, i, U32(next) + U32(min), U32(max));
    HasSplit(s, i, U32(next), U32(min));
    U32Back(s, i, next);
    U32Back(s, i + 4, min);
    U32Back(s, i + 8, max);
    U32Back(s, i + 12, count);
  }
}
