/**
 The two byte-code machines of dyld (the opcodes of dyld_info_command in <mach-o/loader.h>), written from the
 opcode meanings and not from the emitters, and what the emitted programs make them do.
 */
module DyldMachines {
  import opened Bytes
  import opened Wrappers
  import opened Leb128
  import opened Sorting
  import opened Fixups

  // ----- rebase -----

  datatype RebaseRegs = RebaseRegs(ty: nat, seg: nat, off: nat)

  /** The n pointers stride bytes apart from off. */
  function Visits(seg: nat, off: nat, n: nat, stride: nat): seq<Loc>
    decreases n
  {
    if n == 0 then [] else [Loc(seg, off)] + Visits(seg, off + stride, n - 1, stride)
  }

  function Advance(off: nat, n: nat, stride: nat): nat
    decreases n
  {
    if n == 0 then off else Advance(off + stride, n - 1, stride)
  }

  function Prepend<T>(xs: seq<T>, r: Option<seq<T>>): Option<seq<T>> {
    match r
    case None => None
    case Some(ys) => Some(xs + ys)
  }

  /** The pointers a rebase program slides, in order; None for a malformed program. */
  function RunRebase(p: seq<byte>, r: RebaseRegs): Option<seq<Loc>>
    decreases |p|
  {
    if |p| == 0 then Some([]) else
    var op, imm, rest := p[0] / 16, p[0] % 16, p[1..];
    if op == 0x0 then Some([])
    else if op == 0x1 then RunRebase(rest, r.(ty := imm))
    else if op == 0x4 then RunRebase(rest, r.(off := r.off + 8 * imm))
    else if op == 0x5 then
      if r.ty != 1 then None
      else Prepend(Visits(r.seg, r.off, imm, 8), RunRebase(rest, r.(off := r.off + 8 * imm)))
    else if op !in {0x2, 0x3, 0x6, 0x7, 0x8} then None
    else
      match ReadUleb(rest)
      case None => None
      case Some((a, rest1)) =>
        if op == 0x2 then RunRebase(rest1, r.(seg := imm, off := a))
        else if op == 0x3 then RunRebase(rest1, r.(off := r.off + a))
        else if r.ty != 1 then None
        else if op == 0x6 then
          Prepend(Visits(r.seg, r.off, a, 8), RunRebase(rest1, r.(off := r.off + 8 * a)))
        else if op == 0x7 then
          Prepend([Loc(r.seg, r.off)], RunRebase(rest1, r.(off := r.off + a + 8)))
        else
          match ReadUleb(rest1)
          case None => None
          case Some((skip, rest2)) =>
            Prepend(Visits(r.seg, r.off, a, skip + 8), RunRebase(rest2, r.(off := Advance(r.off, a, skip + 8))))
  }

  const REBASE_START := RebaseRegs(0, 0, 0)

  lemma {:induction false} RunRebaseItem(l: Loc, rest: seq<byte>, r: RebaseRegs)
    requires Encodable(l) && r.ty == 1
    ensures RunRebase(RebaseItem(l) + rest, r)
         == Prepend([l], RunRebase(rest, RebaseRegs(1, l.seg, l.off + 8)))
  {
    var p := RebaseItem(l) + rest;
    assert p[1..] == Uleb(l.off) + ([REBASE_DO_IMM_TIMES + 1] + rest);
    UlebRoundTrip(l.off, [REBASE_DO_IMM_TIMES + 1] + rest);
    var r1 := r.(seg := l.seg, off := l.off);
    assert RunRebase(p, r) == RunRebase([REBASE_DO_IMM_TIMES + 1] + rest, r1);
    assert ([REBASE_DO_IMM_TIMES + 1] + rest)[1..] == rest;
    assert Visits(l.seg, l.off, 1, 8) == [l] + Visits(l.seg, l.off + 8, 0, 8) == [l];
  }

  lemma {:induction false} RunRebaseItems(ls: seq<Loc>, r: RebaseRegs)
    requires r.ty == 1 && AllEncodable(ls)
    ensures RunRebase(RebaseItems(ls) + [REBASE_DONE], r) == Some(ls)
  {
    if |ls| == 0 {
      assert RebaseItems(ls) + [REBASE_DONE] == [REBASE_DONE];
    } else {
      var rest := RebaseItems(ls[1..]) + [REBASE_DONE];
      assert RebaseItems(ls) + [REBASE_DONE] == RebaseItem(ls[0]) + rest;
      RunRebaseItem(ls[0], rest, r);
      RunRebaseItems(ls[1..], RebaseRegs(1, ls[0].seg, ls[0].off + 8));
      assert [ls[0]] + ls[1..] == ls;
    }
  }

  /** Rebase program meaning: exactly the given locations, in the given order. */
  lemma {:induction false} RebaseProgramMeaning(ls: seq<Loc>)
    requires AllEncodable(ls)
    ensures RunRebase(RebaseProgram(ls), REBASE_START) == Some(ls)
  {
    var rest := RebaseItems(ls) + [REBASE_DONE];
    assert RebaseProgram(ls)[1..] == rest;
    RunRebaseItems(ls, RebaseRegs(1, 0, 0));
  }

  // ----- bind -----

  datatype BindRegs = BindRegs(ordinal: int, symbol: seq<byte>, ty: nat, addend: int, seg: nat, off: nat)
  datatype BindAction = BindAction(ordinal: int, symbol: seq<byte>, addend: int, loc: Loc)

  function Bound(r: BindRegs): BindAction {
    BindAction(r.ordinal, r.symbol, r.addend, Loc(r.seg, r.off))
  }

  function ReadCString(s: seq<byte>): (r: Option<(seq<byte>, seq<byte>)>)
    ensures r.Some? ==> |r.value.1| < |s|
  {
    if |s| == 0 then None
    else if s[0] == 0 then Some(([], s[1..]))
    else
      match ReadCString(s[1..])
      case None => None
      case Some((name, rest)) => Some(([s[0]] + name, rest))
  }

  function BindRun(r: BindRegs, n: nat, stride: nat): seq<BindAction>
    decreases n
  {
    if n == 0 then [] else [Bound(r)] + BindRun(r.(off := r.off + stride), n - 1, stride)
  }

  /** The binds a bind program performs, in order. The addend register keeps its value between binds. */
  function RunBind(p: seq<byte>, r: BindRegs): Option<seq<BindAction>>
    decreases |p|
  {
    if |p| == 0 then Some([]) else
    var op, imm, rest := p[0] / 16, p[0] % 16, p[1..];
    if op == 0x0 then Some([])
    else if op == 0x1 then RunBind(rest, r.(ordinal := imm))
    else if op == 0x3 then RunBind(rest, r.(ordinal := if imm == 0 then 0 else imm as int - 16))
    else if op == 0x4 then
      match ReadCString(rest)
      case None => None
      case Some((name, rest1)) => RunBind(rest1, r.(symbol := name))
    else if op == 0x5 then RunBind(rest, r.(ty := imm))
    else if op == 0x6 then
      match ReadSleb(rest)
      case None => None
      case Some((a, rest1)) => RunBind(rest1, r.(addend := a))
    else if op == 0x9 then
      if r.ty != 1 then None else Prepend([Bound(r)], RunBind(rest, r.(off := r.off + 8)))
    else if op == 0xB then
      if r.ty != 1 then None else Prepend([Bound(r)], RunBind(rest, r.(off := r.off + 8 + 8 * imm)))
    else if op !in {0x2, 0x7, 0x8, 0xA, 0xC} then None
    else
      match ReadUleb(rest)
      case None => None
      case Some((a, rest1)) =>
        if op == 0x2 then RunBind(rest1, r.(ordinal := a))
        else if op == 0x7 then RunBind(rest1, r.(seg := imm, off := a))
        else if op == 0x8 then RunBind(rest1, r.(off := r.off + a))
        else if r.ty != 1 then None
        else if op == 0xA then Prepend([Bound(r)], RunBind(rest1, r.(off := r.off + 8 + a)))
        else
          match ReadUleb(rest1)
          case None => None
          case Some((skip, rest2)) =>
            Prepend(BindRun(r, a, skip + 8), RunBind(rest2, r.(off := Advance(r.off, a, skip + 8))))
  }

  const BIND_START := BindRegs(0, [], 0, 0, 0, 0)

  predicate NulFree(s: seq<byte>) {
    forall i :: 0 <= i < |s| ==> s[i] != 0
  }

  predicate Runnable(bs: seq<Binding>) {
    BindingsEncodable(bs) && forall i :: 0 <= i < |bs| ==> NulFree(bs[i].shimSymbol)
  }

  lemma {:induction false} CStringRoundTrip(name: seq<byte>, rest: seq<byte>)
    requires NulFree(name)
    ensures ReadCString(name + [0] + rest) == Some((name, rest))
  {
    var s := name + [0] + rest;
    if |name| == 0 {
      assert s[1..] == rest;
    } else {
      assert s[1..] == name[1..] + [0] + rest;
      CStringRoundTrip(name[1..], rest);
      assert [name[0]] + name[1..] == name;
    }
  }

  lemma {:induction false} RunSymbol(name: seq<byte>, rest: seq<byte>, r: BindRegs)
    requires NulFree(name)
    ensures RunBind([BIND_SET_SYMBOL_TRAILING_FLAGS_IMM] + name + [0] + rest, r) == RunBind(rest, r.(symbol := name))
  {
    var p := [BIND_SET_SYMBOL_TRAILING_FLAGS_IMM] + name + [0] + rest;
    assert p[1..] == name + [0] + rest;
    CStringRoundTrip(name, rest);
  }

  lemma {:induction false} RunAddend(a: int, rest: seq<byte>, r: BindRegs)
    ensures RunBind([BIND_SET_ADDEND_SLEB] + Sleb(a) + rest, r) == RunBind(rest, r.(addend := a))
  {
    var p := [BIND_SET_ADDEND_SLEB] + Sleb(a) + rest;
    assert p[1..] == Sleb(a) + rest;
    SlebRoundTrip(a, rest);
  }

  lemma {:induction false} RunDoBind(l: Loc, rest: seq<byte>, r: BindRegs)
    requires Encodable(l) && r.ty == 1
    ensures RunBind([BIND_SET_SEGMENT_AND_OFFSET_ULEB + l.seg] + Uleb(l.off) + [BIND_DO_BIND] + rest, r)
         == Prepend([BindAction(r.ordinal, r.symbol, r.addend, l)],
                    RunBind(rest, r.(seg := l.seg, off := l.off + 8)))
  {
    var p := [BIND_SET_SEGMENT_AND_OFFSET_ULEB + l.seg] + Uleb(l.off) + [BIND_DO_BIND] + rest;
    assert p[1..] == Uleb(l.off) + ([BIND_DO_BIND] + rest);
    UlebRoundTrip(l.off, [BIND_DO_BIND] + rest);
    assert ([BIND_DO_BIND] + rest)[1..] == rest;
  }

  /** The addend a binding is given when the register held carried before it. */
  function NextAddend(b: Binding, carried: int): int {
    if b.addend != 0 then b.addend else carried
  }

  lemma {:induction false} RunBindItem(b: Binding, rest: seq<byte>, r: BindRegs)
    requires Encodable(b.loc) && NulFree(b.shimSymbol) && r.ty == 1
    ensures var a := NextAddend(b, r.addend);
      RunBind(BindItem(b) + rest, r)
      == Prepend([BindAction(r.ordinal, b.shimSymbol, a, b.loc)],
                 RunBind(rest, BindRegs(r.ordinal, b.shimSymbol, 1, a, b.loc.seg, b.loc.off + 8)))
  {
    hide RunBind, Uleb, Sleb;
    var a := NextAddend(b, r.addend);
    var tail := [BIND_SET_SEGMENT_AND_OFFSET_ULEB + b.loc.seg] + Uleb(b.loc.off) + [BIND_DO_BIND] + rest;
    var middle := (if b.addend != 0 then [BIND_SET_ADDEND_SLEB] + Sleb(b.addend) else []) + tail;
    assert BindItem(b) + rest == [BIND_SET_SYMBOL_TRAILING_FLAGS_IMM] + b.shimSymbol + [0] + middle;
    RunSymbol(b.shimSymbol, middle, r);
    var r1 := r.(symbol := b.shimSymbol);
    if b.addend != 0 {
      RunAddend(b.addend, tail, r1);
    } else {
      assert middle == tail;
    }
    RunDoBind(b.loc, rest, r1.(addend := a));
  }

  /** What the machine performs for the bindings bs: each addend is its own, or else the last nonzero one. */
  function Actions(bs: seq<Binding>, ordinal: int, carried: int): (r: seq<BindAction>)
    ensures |r| == |bs|
  {
    if |bs| == 0 then []
    else
      var a := NextAddend(bs[0], carried);
      [BindAction(ordinal, bs[0].shimSymbol, a, bs[0].loc)] + Actions(bs[1..], ordinal, a)
  }

  lemma {:induction false} RunBindItems(bs: seq<Binding>, r: BindRegs)
    requires r.ty == 1 && Runnable(bs)
    ensures RunBind(BindItems(bs) + [BIND_DONE], r) == Some(Actions(bs, r.ordinal, r.addend))
  {
    if |bs| == 0 {
      assert BindItems(bs) + [BIND_DONE] == [BIND_DONE];
    } else {
      hide RunBind, BindItem;
      var rest := BindItems(bs[1..]) + [BIND_DONE];
      assert BindItems(bs) + [BIND_DONE] == BindItem(bs[0]) + rest;
      RunBindItem(bs[0], rest, r);
      RunBindItems(bs[1..], BindRegs(r.ordinal, bs[0].shimSymbol, 1, NextAddend(bs[0], r.addend), bs[0].loc.seg,
                                     bs[0].loc.off + 8));
    }
  }

  lemma {:induction false} BindProgramMeaning(bs: seq<Binding>, ordinal: nat)
    requires ordinal <= 15
    requires Runnable(bs)
    ensures RunBind(BindProgram(bs, ordinal), BIND_START) == Some(Actions(bs, ordinal, 0))
  {
    var rest := BindItems(bs) + [BIND_DONE];
    var p := BindProgram(bs, ordinal);
    assert p[1..] == [BIND_SET_TYPE_IMM + TYPE_POINTER] + rest;
    assert p[1..][1..] == rest;
    RunBindItems(bs, BindRegs(ordinal, [], 1, 0, 0, 0));
  }

  // ----- the sticky addend -----

  function Intended(bs: seq<Binding>, ordinal: int): (r: seq<BindAction>)
    ensures |r| == |bs|
    ensures forall i :: 0 <= i < |bs| ==> r[i] == BindAction(ordinal, bs[i].shimSymbol, bs[i].addend, bs[i].loc)
  {
    seq(|bs|, i requires 0 <= i < |bs| => BindAction(ordinal, bs[i].shimSymbol, bs[i].addend, bs[i].loc))
  }

  /** No binding without an addend comes after one with an addend. */
  predicate ZerosFirst(bs: seq<Binding>) {
    forall i, j :: 0 <= i < j < |bs| && bs[i].addend != 0 ==> bs[j].addend != 0
  }

  /** The addend left in the register after bs. */
  function Carried(bs: seq<Binding>): int {
    if |bs| == 0 then 0
    else NextAddend(bs[|bs| - 1], Carried(bs[..|bs| - 1]))
  }

  /** Carried is the latest nonzero addend, or zero when there is none. */
  lemma {:induction false} CarriedIsLatest(bs: seq<Binding>)
    ensures Carried(bs) == 0 ==> forall i :: 0 <= i < |bs| ==> bs[i].addend == 0
    ensures Carried(bs) != 0 ==>
      exists i :: 0 <= i < |bs| && bs[i].addend == Carried(bs) && forall j :: i < j < |bs| ==> bs[j].addend == 0
  {
    if |bs| > 0 {
      var n := |bs| - 1;
      CarriedIsLatest(bs[..n]);
      if bs[n].addend == 0 && Carried(bs) != 0 {
        var i :| 0 <= i < n && bs[..n][i].addend == Carried(bs) && forall j :: i < j < n ==> bs[..n][j].addend == 0;
        forall j | i < j < |bs| ensures bs[j].addend == 0 {
          if j < n {
            assert bs[..n][j] == bs[j];
          }
        }
        assert bs[i].addend == Carried(bs);
      }
    }
  }

  lemma {:induction false} ActionAt(bs: seq<Binding>, ordinal: int, carried: int, i: nat)
    requires i < |bs|
    ensures Actions(bs, ordinal, carried)[i]
         == BindAction(ordinal, bs[i].shimSymbol,
                       if Carried(bs[..i + 1]) != 0 then Carried(bs[..i + 1]) else carried, bs[i].loc)
  {
    var a := NextAddend(bs[0], carried);
    if i == 0 {
      assert bs[..1][..0] == [];
      assert Carried(bs[..1]) == NextAddend(bs[0], 0);
    } else {
      ActionAt(bs[1..], ordinal, a, i - 1);
      CarriedTail(bs[..i + 1]);
      assert bs[1..][..i] == bs[..i + 1][1..];
    }
  }

  lemma {:induction false} CarriedTail(bs: seq<Binding>)
    requires |bs| > 0
    ensures Carried(bs) == if Carried(bs[1..]) != 0 then Carried(bs[1..]) else bs[0].addend
  {
    var n := |bs| - 1;
    if n == 0 {
      assert bs[..n] == [];
    } else {
      CarriedTail(bs[..n]);
      assert bs[..n][1..] == bs[1..][..n - 1];
      assert bs[1..][n - 1] == bs[n];
    }
  }

  /** Bind program meaning, binding by binding: the exact addend each one receives. */
  lemma {:induction false} BindMeaningAt(bs: seq<Binding>, ordinal: nat, i: nat)
    requires ordinal <= 15 && i < |bs|
    requires Runnable(bs)
    ensures var r := RunBind(BindProgram(bs, ordinal), BIND_START);
      r.Some? && |r.value| == |bs|
      && r.value[i] == BindAction(ordinal, bs[i].shimSymbol, Carried(bs[..i + 1]), bs[i].loc)
  {
    BindProgramMeaning(bs, ordinal);
    ActionAt(bs, ordinal, 0, i);
  }

  /** The program does what the list says exactly when no zero addend follows a nonzero one. */
  lemma {:induction false} BindFaithfulIff(bs: seq<Binding>, ordinal: nat)
    requires ordinal <= 15
    requires Runnable(bs)
    ensures RunBind(BindProgram(bs, ordinal), BIND_START) == Some(Intended(bs, ordinal)) <==> ZerosFirst(bs)
  {
    BindProgramMeaning(bs, ordinal);
    var r := Actions(bs, ordinal, 0);
    forall i | 0 <= i < |bs|
      ensures r[i].addend == Carried(bs[..i + 1]) && r[i] == Intended(bs, ordinal)[i].(addend := r[i].addend)
    {
      ActionAt(bs, ordinal, 0, i);
    }
    if ZerosFirst(bs) {
      forall i | 0 <= i < |bs| ensures r[i] == Intended(bs, ordinal)[i] {
        CarriedIsLatest(bs[..i + 1]);
      }
      assert r == Intended(bs, ordinal);
    } else {
      var i, j :| 0 <= i < j < |bs| && bs[i].addend != 0 && bs[j].addend == 0;
      CarriedIsLatest(bs[..j + 1]);
      assert bs[..j + 1][i] == bs[i];
      assert r[j] != Intended(bs, ordinal)[j];
    }
  }

  /** Two bindings, addends 8 and then 0: dyld gives both 8. */
  lemma {:induction false} SecondInheritsAddend()
    ensures var bs := [Binding(0, 1025, [97], [97], 0, Loc(1, 0), 8), Binding(8, 1025, [98], [98], 0, Loc(1, 8), 0)];
      && Runnable(bs) && RunBind(BindProgram(bs, 1), BIND_START).Some?
      && |RunBind(BindProgram(bs, 1), BIND_START).value| == 2
      && RunBind(BindProgram(bs, 1), BIND_START).value[1] == BindAction(1, [98], 8, Loc(1, 8))
  {
    var bs := [Binding(0, 1025, [97], [97], 0, Loc(1, 0), 8), Binding(8, 1025, [98], [98], 0, Loc(1, 8), 0)];
    assert Runnable(bs);
    BindMeaningAt(bs, 1, 1);
    hide RunBind, BindProgram;
    assert bs[..2] == bs;
    assert bs[..1] == [bs[0]] && bs[..1][..0] == [];
    assert Carried(bs[..1]) == 8;
  }
}
