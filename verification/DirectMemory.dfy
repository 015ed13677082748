/**
 The accounting of direct memory in nio_jmemory.cpp. An allocation that meets a
 limit calls back into Java, which may free, allocate or move the limits before
 the allocation goes on; operations are therefore trees.
 */
module DirectMemory {
  // uint64_t, and the wrap-around of its arithmetic.
  const M := 0x1_0000_0000_0000_0000
  type uint64 = x: nat | x < M

  function Wrap(x: int): uint64 { x % M }

  // memory_usage_t
  datatype Usage = Usage(
    totalAllocated: uint64, totalDeallocated: uint64, allocateCalls: uint64, deallocateCalls: uint64,
    small: uint64, large: uint64, max: uint64, soft: uint64, reserved: uint64, available: uint64)

  // One call from Java, with what the callbacks it triggers do, and whether
  // malloc fails.
  datatype Op =
    | Allocate(size: int, breach: seq<Op>, softBreach: seq<Op>, mallocFails: bool)
    | Dispose(isNull: bool, size: int)
    | SetMax(size: int)
    | SetSoft(size: int)

  // ------------------------------------------------------- the specification

  function ApplyAll(u: Usage, ops: seq<Op>): Usage
    decreases ops, 0
  {
    if ops == [] then u else Apply(ApplyAll(u, ops[..|ops| - 1]), ops[|ops| - 1])
  }

  // The state after the callback, if there is one. The C comparison makes the
  // jint unsigned.
  function Prepared(u: Usage, op: Op): Usage
    requires op.Allocate?
    decreases op, 0
  {
    if u.available < Wrap(op.size) then ApplyAll(u, op.breach)
    else if u.reserved > u.soft then ApplyAll(u, op.softBreach)
    else u
  }

  // Whether the bytes are charged: the limit is checked again after a breach.
  predicate Refused(u: Usage, op: Op)
    requires op.Allocate?
    decreases op, 1
  {
    u.available < Wrap(op.size) && Prepared(u, op).available < Wrap(op.size)
  }

  // What allocate0 does after the callbacks.
  function Charge(v: Usage, size: int, fails: bool): Usage {
    var w := v.(available := Wrap(v.available - size), reserved := Wrap(v.reserved + size));
    if fails then w
    else w.(totalAllocated := Wrap(w.totalAllocated + size), allocateCalls := Wrap(w.allocateCalls + 1),
            small := if size <= 255 then Wrap(w.small + 1) else w.small,
            large := if size <= 255 then w.large else Wrap(w.large + 1))
  }

  function Apply(u: Usage, op: Op): Usage
    decreases op, 2
  {
    match op
    case Allocate(size, _, _, fails) =>
      var v := Prepared(u, op);
      if Refused(u, op) then v else Charge(v, size, fails)
    case Dispose(isNull, size) =>
      if isNull then u
      else u.(totalDeallocated := Wrap(u.totalDeallocated + size), deallocateCalls := Wrap(u.deallocateCalls + 1),
              available := Wrap(u.available + size), reserved := Wrap(u.reserved - size))
    case SetMax(size) => u.(max := Wrap(size), available := Wrap(u.available + size - u.max))
    case SetSoft(size) => u.(soft := Wrap(size))
  }

  // Bytes charged to allocations whose malloc then failed, nested ones included.
  function LostAll(u: Usage, ops: seq<Op>): int
    decreases ops, 0
  {
    if ops == [] then 0
    else LostAll(u, ops[..|ops| - 1]) + Lost(ApplyAll(u, ops[..|ops| - 1]), ops[|ops| - 1])
  }

  function Lost(u: Usage, op: Op): int
    decreases op, 2
  {
    match op
    case Allocate(size, breach, softBreach, fails) =>
      var nested := if u.available < Wrap(size) then LostAll(u, breach)
        else if u.reserved > u.soft then LostAll(u, softBreach) else 0;
      nested + if fails && !Refused(u, op) then size else 0
    case _ => 0
  }

  // ------------------------------------------------------------- conservation

  // a + b - c
  function Sum(a: uint64, b: uint64, c: uint64): uint64 { Wrap(a + b - c) }

  function Balance(u: Usage): uint64 { Sum(u.available, u.reserved, u.max) }

  function Outstanding(u: Usage): uint64 { Sum(u.reserved, u.totalDeallocated, u.totalAllocated) }

  function Uncounted(u: Usage): uint64 { Sum(u.small, u.large, u.allocateCalls) }

  lemma WrapSame(x: int, y: int, k: int)
    requires x == y + M * k
    ensures Wrap(x) == Wrap(y)
  {
  }

  lemma WrapShift(x: int) returns (k: int)
    ensures x == Wrap(x) + M * k
  {
    k := x / M;
  }

  lemma WrapOf(x: uint64)
    ensures Wrap(x) == x
  {
  }

  // One step of three counters.
  lemma SumStep(a: uint64, b: uint64, c: uint64, da: int, db: int, dc: int)
    ensures Sum(Wrap(a + da), Wrap(b + db), Wrap(c + dc)) == Wrap(Sum(a, b, c) + da + db - dc)
  {
    hide Wrap;
    var i := WrapShift(a + da);
    var j := WrapShift(b + db);
    var k := WrapShift(c + dc);
    var l := WrapShift(a + b - c);
    WrapSame(Wrap(a + da) + Wrap(b + db) - Wrap(c + dc), Wrap(a + b - c) + da + db - dc, l + k - i - j);
  }

  lemma WrapAdds(x: int, y: int)
    ensures Wrap(Wrap(x) + y) == Wrap(x + y)
  {
    hide Wrap;
    var k := WrapShift(x);
    WrapSame(Wrap(x) + y, x + y, -k);
  }

  lemma Unchanged(u: Usage)
    ensures Wrap(u.max) == u.max && Wrap(u.totalAllocated) == u.totalAllocated
    ensures Wrap(u.totalDeallocated) == u.totalDeallocated
    ensures Wrap(u.small) == u.small && Wrap(u.large) == u.large && Wrap(u.allocateCalls) == u.allocateCalls
    ensures Wrap(Balance(u)) == Balance(u) && Wrap(Outstanding(u)) == Outstanding(u)
    ensures Wrap(Uncounted(u)) == Uncounted(u)
  {
  }

  lemma ChargeKeeps(v: Usage, size: int, fails: bool)
    ensures Balance(Charge(v, size, fails)) == Balance(v)
    ensures Outstanding(Charge(v, size, fails)) == Wrap(Outstanding(v) + if fails then size else 0)
    ensures Uncounted(Charge(v, size, fails)) == Uncounted(v)
  {
    Unchanged(v);
    hide Wrap, Sum;
    SumStep(v.available, v.reserved, v.max, -size, size, 0);
    SumStep(v.reserved, v.totalDeallocated, v.totalAllocated, size, 0, if fails then 0 else size);
    SumStep(v.small, v.large, v.allocateCalls, if size <= 255 then 1 else 0, if size <= 255 then 0 else 1, 1);
  }

  lemma DisposeKeeps(u: Usage, isNull: bool, size: int)
    ensures var v := Apply(u, Dispose(isNull, size));
      Balance(v) == Balance(u) && Outstanding(v) == Outstanding(u) && Uncounted(v) == Uncounted(u)
  {
    Unchanged(u);
    hide Wrap, Sum;
    SumStep(u.available, u.reserved, u.max, size, -size, 0);
    SumStep(u.reserved, u.totalDeallocated, u.totalAllocated, -size, size, 0);
  }

  lemma SetMaxKeeps(u: Usage, size: int)
    ensures var v := Apply(u, SetMax(size));
      Balance(v) == Balance(u) && Outstanding(v) == Outstanding(u) && Uncounted(v) == Uncounted(u)
  {
    Unchanged(u);
    assert Wrap(u.reserved) == u.reserved;
    hide Wrap, Sum;
    SumStep(u.available, u.reserved, u.max, size - u.max, 0, size - u.max);
  }

  // Whatever the callbacks do: available plus reserved moves only with the
  // limit, what is reserved beyond the allocations not yet returned is exactly
  // what failed mallocs were charged, and every counted call has its size class.
  lemma {:induction false} Conserved(u: Usage, op: Op)
    ensures Balance(Apply(u, op)) == Balance(u)
    ensures Outstanding(Apply(u, op)) == Wrap(Outstanding(u) + Lost(u, op))
    ensures Uncounted(Apply(u, op)) == Uncounted(u)
    decreases op, 1
  {
    match op
    case Allocate(size, breach, softBreach, fails) =>
      Unchanged(u);
      if u.available < Wrap(size) {
        ConservedAll(u, breach);
      } else if u.reserved > u.soft {
        ConservedAll(u, softBreach);
      }
      hide Wrap, Balance, Outstanding, Uncounted, LostAll, ApplyAll, Lost, Apply;
      AllocateKeeps(u, op);
    case Dispose(isNull, size) =>
      DisposeKeeps(u, isNull, size);
      Unchanged(u);
    case SetMax(size) =>
      SetMaxKeeps(u, size);
      Unchanged(u);
    case SetSoft(size) =>
      Unchanged(u);
  }

  // What the callbacks of an allocation lose.
  function Nested(u: Usage, op: Op): int
    requires op.Allocate?
  {
    if u.available < Wrap(op.size) then LostAll(u, op.breach)
    else if u.reserved > u.soft then LostAll(u, op.softBreach)
    else 0
  }

  lemma AllocateKeeps(u: Usage, op: Op)
    requires op.Allocate?
    requires var v := Prepared(u, op);
      Balance(v) == Balance(u) && Uncounted(v) == Uncounted(u) && Outstanding(v) == Wrap(Outstanding(u) + Nested(u, op))
    ensures Balance(Apply(u, op)) == Balance(u)
    ensures Outstanding(Apply(u, op)) == Wrap(Outstanding(u) + Lost(u, op))
    ensures Uncounted(Apply(u, op)) == Uncounted(u)
  {
    hide *;
    AllocateIs(u, op);
    LostIs(u, op);
    ChargeKeeps(Prepared(u, op), op.size, op.mallocFails);
    WrapAdds(Outstanding(u) + Nested(u, op), op.size);
    WrapAdds(Outstanding(u) + Nested(u, op), 0);
  }

  lemma AllocateIs(u: Usage, op: Op)
    requires op.Allocate?
    ensures Apply(u, op) == if Refused(u, op) then Prepared(u, op) else Charge(Prepared(u, op), op.size, op.mallocFails)
  {
    hide Prepared, Refused, Charge;
  }

  lemma LostIs(u: Usage, op: Op)
    requires op.Allocate?
    ensures Lost(u, op) == Nested(u, op) + if op.mallocFails && !Refused(u, op) then op.size else 0
  {
    hide LostAll, Refused;
  }

  lemma {:induction false} ConservedAll(u: Usage, ops: seq<Op>)
    ensures Balance(ApplyAll(u, ops)) == Balance(u)
    ensures Outstanding(ApplyAll(u, ops)) == Wrap(Outstanding(u) + LostAll(u, ops))
    ensures Uncounted(ApplyAll(u, ops)) == Uncounted(u)
    decreases ops, 0
  {
    Unchanged(u);
    hide Wrap, Balance, Outstanding, Uncounted, Apply, Lost;
    if ops != [] {
      var front := ops[..|ops| - 1];
      ConservedAll(u, front);
      Conserved(ApplyAll(u, front), ops[|ops| - 1]);
      WrapAdds(Outstanding(u) + LostAll(u, front), Lost(ApplyAll(u, front), ops[|ops| - 1]));
    }
  }

  const ZERO := Usage(0, 0, 0, 0, 0, 0, 0, 0, 0, 0)

  // From the start of the program, over any run.
  lemma FromTheStart(ops: seq<Op>)
    ensures var u := ApplyAll(ZERO, ops);
      && Wrap(u.available + u.reserved) == u.max
      && u.reserved == Wrap(u.totalAllocated - u.totalDeallocated + LostAll(ZERO, ops))
      && u.allocateCalls == Wrap(u.small + u.large)
  {
    ConservedAll(ZERO, ops);
    var u := ApplyAll(ZERO, ops);
    var lost := LostAll(ZERO, ops);
    hide ApplyAll, LostAll;
    Solve(u.available, u.reserved, u.max, 0);
    Solve(u.small, u.large, u.allocateCalls, 0);
    SolveFirst(u.reserved, u.totalDeallocated, u.totalAllocated, lost);
  }

  lemma Solve(a: uint64, b: uint64, c: uint64, d: int)
    requires Sum(a, b, c) == Wrap(d)
    ensures c == Wrap(a + b - d)
  {
    hide Wrap;
    var i := WrapShift(a + b - c);
    var j := WrapShift(d);
    WrapSame(a + b - d, c, i - j);
    WrapOf(c);
  }

  lemma SolveFirst(a: uint64, b: uint64, c: uint64, d: int)
    requires Sum(a, b, c) == Wrap(d)
    ensures a == Wrap(c - b + d)
  {
    hide Wrap;
    var i := WrapShift(a + b - c);
    var j := WrapShift(d);
    WrapSame(c - b + d, a, j - i);
    WrapOf(a);
  }

  // ------------------------------------------------------------ the limit holds

  // The sums are equal as numbers, not just modulo 2^64; so the reserved bytes
  // are within the limit, which a jlong can hold.
  predicate Exact(u: Usage) { u.available + u.reserved == u.max < 0x8000_0000_0000_0000 }

  // Callers, those in callbacks included, ask for a size that is not negative,
  // free what they hold, and do not lower the limit below what is reserved.
  predicate Honest(u: Usage, op: Op)
    decreases op, 1
  {
    match op
    case Allocate(size, breach, softBreach, _) =>
      && 0 <= size < 0x8000_0000
      && (u.available < size ==> HonestAll(u, breach))
      && (u.available >= size && u.reserved > u.soft ==> HonestAll(u, softBreach))
    case Dispose(isNull, size) => !isNull ==> 0 <= size <= u.reserved
    case SetMax(size) => u.reserved <= size < 0x8000_0000_0000_0000
    case SetSoft(size) => true
  }

  predicate HonestAll(u: Usage, ops: seq<Op>)
    decreases ops, 0
  {
    ops == [] || (HonestAll(u, ops[..|ops| - 1]) && Honest(ApplyAll(u, ops[..|ops| - 1]), ops[|ops| - 1]))
  }

  // The check that the code does not repeat: the callback at the soft limit
  // leaves room for the allocation it interrupted.
  predicate Roomy(u: Usage, op: Op)
    decreases op, 1
  {
    match op
    case Allocate(size, breach, softBreach, _) =>
      && (u.available < Wrap(size) ==> RoomyAll(u, breach))
      && (u.available >= Wrap(size) && u.reserved > u.soft ==>
        RoomyAll(u, softBreach) && ApplyAll(u, softBreach).available >= Wrap(size))
    case _ => true
  }

  predicate RoomyAll(u: Usage, ops: seq<Op>)
    decreases ops, 0
  {
    ops == [] || (RoomyAll(u, ops[..|ops| - 1]) && Roomy(ApplyAll(u, ops[..|ops| - 1]), ops[|ops| - 1]))
  }

  // The sums are exact in every state on the way, inside callbacks as well.
  predicate Within(u: Usage, op: Op)
    decreases op, 1
  {
    && (op.Allocate? ==>
      && (u.available < Wrap(op.size) ==> WithinAll(u, op.breach))
      && (u.available >= Wrap(op.size) && u.reserved > u.soft ==> WithinAll(u, op.softBreach)))
    && Exact(Apply(u, op))
  }

  predicate WithinAll(u: Usage, ops: seq<Op>)
    decreases ops, 0
  {
    ops == [] || (WithinAll(u, ops[..|ops| - 1]) && Within(ApplyAll(u, ops[..|ops| - 1]), ops[|ops| - 1]))
  }

  lemma LastApplied(u: Usage, ops: seq<Op>)
    requires ops != []
    ensures ApplyAll(u, ops) == Apply(ApplyAll(u, ops[..|ops| - 1]), ops[|ops| - 1])
  {
    hide Apply;
  }

  lemma DisposeExact(u: Usage, isNull: bool, size: int)
    requires Exact(u) && (!isNull ==> 0 <= size <= u.reserved)
    ensures var v := Apply(u, Dispose(isNull, size)); Exact(v) && v.available >= u.available && v.max == u.max
  {
    hide Wrap;
    if !isNull {
      WrapOf(u.available + size);
      WrapOf(u.reserved - size);
    }
  }

  lemma SetMaxExact(u: Usage, size: int)
    requires Exact(u) && u.reserved <= size < 0x8000_0000_0000_0000
    ensures Exact(Apply(u, SetMax(size)))
  {
    WrapOf(size);
    WrapOf(size - u.reserved);
  }

  // Charging keeps the sums exact, and the reserved bytes within the limit, if
  // and only if the bytes are available.
  lemma ChargeExact(v: Usage, size: nat, fails: bool)
    requires Exact(v) && size < 0x8000_0000
    ensures Exact(Charge(v, size, fails)) <==> v.available >= size
    ensures Charge(v, size, fails).reserved <= Charge(v, size, fails).max <==> v.available >= size
  {
    hide Wrap;
    WrapOf(v.reserved + size);
    if v.available >= size {
      WrapOf(v.available - size);
    } else {
      assert Charge(v, size, fails).reserved == v.reserved + size > v.max;
    }
  }

  // After a callback at the soft limit: the exact condition, which a caller of
  // the charging code could check, and the code does not.
  lemma SoftCallback(u: Usage, op: Op)
    requires op.Allocate? && 0 <= op.size < 0x8000_0000
    requires op.size <= u.available && u.reserved > u.soft && Exact(ApplyAll(u, op.softBreach))
    ensures Exact(Apply(u, op)) <==> ApplyAll(u, op.softBreach).available >= op.size
    ensures Apply(u, op).reserved <= Apply(u, op).max <==> ApplyAll(u, op.softBreach).available >= op.size
  {
    WrapOf(op.size);
    AllocateIs(u, op);
    assert Prepared(u, op) == ApplyAll(u, op.softBreach) && !Refused(u, op);
    hide ApplyAll, Wrap, Charge, Exact, Apply;
    ChargeExact(ApplyAll(u, op.softBreach), op.size, op.mallocFails);
  }

  // One call stays within the limit, all the way, exactly when every callback
  // at the soft limit leaves room.
  lemma {:induction false} LimitHolds(u: Usage, op: Op)
    requires Exact(u) && Honest(u, op)
    ensures Within(u, op) <==> Roomy(u, op)
    decreases op, 1
  {
    match op
    case Allocate(size, breach, softBreach, fails) =>
      WrapOf(size);
      AllocateIs(u, op);
      if u.available < size {
        LimitHoldsAll(u, breach);
        hide ApplyAll, HonestAll, RoomyAll, WithinAll, Wrap, Charge, Apply, Exact;
        ChargeExact(if RoomyAll(u, breach) then ApplyAll(u, breach) else u, size, fails);
      } else if u.reserved > u.soft {
        LimitHoldsAll(u, softBreach);
        hide ApplyAll, HonestAll, RoomyAll, WithinAll, Wrap, Charge, Apply, Exact;
        if RoomyAll(u, softBreach) {
          SoftCallback(u, op);
        }
      } else {
        hide ApplyAll, HonestAll, RoomyAll, WithinAll, Wrap, Charge, Apply, Exact;
        ChargeExact(u, size, fails);
      }
    case Dispose(isNull, size) =>
      DisposeExact(u, isNull, size);
    case SetMax(size) =>
      SetMaxExact(u, size);
    case SetSoft(size) =>
  }

  // A whole run of honest callers: every state on the way has exact sums if and
  // only if every callback at the soft limit leaves room for its allocation; and
  // then the reserved bytes never pass the limit.
  lemma {:induction false} LimitHoldsAll(u: Usage, ops: seq<Op>)
    requires Exact(u) && HonestAll(u, ops)
    ensures WithinAll(u, ops) <==> RoomyAll(u, ops)
    ensures RoomyAll(u, ops) ==> Exact(ApplyAll(u, ops)) && ApplyAll(u, ops).reserved <= ApplyAll(u, ops).max
    decreases ops, 0
  {
    if ops != [] {
      var front := ops[..|ops| - 1];
      LimitHoldsAll(u, front);
      LastApplied(u, ops);
      hide ApplyAll, Apply, Honest, Roomy;
      if RoomyAll(u, front) {
        LimitHolds(ApplyAll(u, front), ops[|ops| - 1]);
      }
    }
  }

  // Callbacks that only free always leave room.
  predicate OnlyFrees(ops: seq<Op>) {
    forall op :: op in ops ==> op.Dispose?
  }

  lemma {:induction false} FreesLeaveRoom(u: Usage, ops: seq<Op>)
    requires Exact(u) && HonestAll(u, ops) && OnlyFrees(ops)
    ensures RoomyAll(u, ops) && Exact(ApplyAll(u, ops)) && ApplyAll(u, ops).available >= u.available
  {
    if ops != [] {
      var front, last := ops[..|ops| - 1], ops[|ops| - 1];
      assert last in ops;
      FreesLeaveRoom(u, front);
      var v := ApplyAll(u, front);
      assert Honest(v, last);
      hide ApplyAll, HonestAll, OnlyFrees, Apply;
      DisposeExact(v, last.isNull, last.size);
      LastApplied(u, ops);
    }
  }

  // A callback that allocates can leave no room: the limit is passed.
  lemma SoftCallbackCanOvercommit()
    ensures exists u: Usage, op: Op ::
      Exact(u) && Honest(u, op) && op.Allocate? && u.available >= op.size && Apply(u, op).reserved > Apply(u, op).max
  {
    var u := Usage(1, 0, 1, 0, 1, 0, 10, 0, 1, 9);
    var inner := Allocate(5, [], [], false);
    var op := Allocate(5, [], [inner], false);
    assert ApplyAll(u, []) == u;
    assert Prepared(u, inner) == u;
    var v := Apply(u, inner);
    assert v.reserved == 6 && v.available == 4 && v.max == 10;
    assert [inner][..0] == [];
    assert ApplyAll(u, [inner]) == v;
    assert Honest(u, inner) && HonestAll(u, [inner][..0]);
    assert HonestAll(u, [inner]) && [inner][0] == inner;
    assert Honest(u, op);
    SoftCallback(u, op);
    assert Apply(u, op).reserved > Apply(u, op).max;
  }

  // ------------------------------------------------------- what the limits do

  // An allocation that no callback interrupts.
  function Plain(size: int): Op { Allocate(size, [], [], false) }

  // A new soft limit takes effect at the next allocation that fits: its callback
  // runs if and only if more than that is reserved.
  lemma SoftLimitDecides(u: Usage, n: uint64, size: nat, breach: seq<Op>, softBreach: seq<Op>)
    requires size <= u.available && size < 0x8000_0000
    ensures var v := Apply(u, SetSoft(n)); var op := Allocate(size, breach, softBreach, false);
      && v == u.(soft := n)
      && Apply(v, op) == Charge(if u.reserved > n then ApplyAll(v, softBreach) else v, size, false)
  {
    WrapOf(n);
    WrapOf(size);
    var v, op := Apply(u, SetSoft(n)), Allocate(size, breach, softBreach, false);
    AllocateIs(v, op);
    hide ApplyAll, Charge, Wrap;
  }

  lemma PlainIs(u: Usage, size: nat)
    requires size < 0x8000_0000
    ensures Apply(u, Plain(size)) == if u.available < size then u else Charge(u, size, false)
  {
    WrapOf(size);
    NoOps(u);
    hide ApplyAll, Charge, Wrap;
  }

  lemma NoOps(u: Usage)
    ensures ApplyAll(u, []) == u
  {
  }

  // At the limit the callback comes first, and what it has made available decides.
  lemma BreachDecides(u: Usage, size: nat, breach: seq<Op>, softBreach: seq<Op>)
    requires u.available < size < 0x8000_0000
    ensures var v := ApplyAll(u, breach);
      Apply(u, Allocate(size, breach, softBreach, false)) == if v.available < size then v else Charge(v, size, false)
  {
    WrapOf(size);
    AllocateIs(u, Allocate(size, breach, softBreach, false));
    hide ApplyAll, Charge, Wrap;
  }

  lemma SetMaxIs(u: Usage, n: nat)
    requires Exact(u) && u.reserved <= n < 0x8000_0000_0000_0000
    ensures Apply(u, SetMax(n)) == u.(max := n, available := n - u.reserved)
  {
    hide Wrap;
    WrapOf(n);
    WrapOf(n - u.reserved);
    assert u.available + n - u.max == n - u.reserved;
  }

  // A new limit, too: what is available is what it leaves, and an allocation is
  // refused, and not counted, if and only if it would pass the limit.
  lemma LimitDecides(u: Usage, n: nat, size: nat)
    requires Exact(u) && u.reserved <= n < 0x8000_0000_0000_0000 && size < 0x8000_0000
    ensures var v := Apply(u, SetMax(n));
      && v == u.(max := n, available := n - u.reserved)
      && (Apply(v, Plain(size)).allocateCalls == u.allocateCalls <==> u.reserved + size > n)
  {
    SetMaxIs(u, n);
    PlainIs(Apply(u, SetMax(n)), size);
    OneMore(u.allocateCalls);
    hide Apply, Wrap;
  }

  lemma OneMore(x: uint64)
    ensures Wrap(x + 1) != x
  {
  }

  // What is allocated and freed again leaves the sums as they were; both are
  // counted, sizes up to 255 as small; and freeing nothing changes nothing.
  lemma AllocateAndFree(u: Usage, size: nat)
    requires Exact(u) && size <= u.available && size < 0x8000_0000
    ensures var v := Apply(u, Plain(size)); var w := Apply(v, Dispose(false, size));
      && v.available == u.available - size && v.reserved == u.reserved + size
      && w == u.(totalAllocated := Wrap(u.totalAllocated + size), totalDeallocated := Wrap(u.totalDeallocated + size),
                 allocateCalls := Wrap(u.allocateCalls + 1), deallocateCalls := Wrap(u.deallocateCalls + 1),
                 small := Wrap(u.small + if size < 0x100 then 1 else 0),
                 large := Wrap(u.large + if size < 0x100 then 0 else 1))
      && Apply(w, Dispose(true, size)) == w
  {
    hide Wrap, Apply, Charge, Plain;
    PlainIs(u, size);
    ChargeIs(u, size);
    Freed(Apply(u, Plain(size)), size);
    WrapOf(u.available);
    WrapOf(u.reserved);
  }

  lemma ChargeIs(u: Usage, size: nat)
    requires Exact(u) && size <= u.available
    ensures Charge(u, size, false) ==
      u.(available := u.available - size, reserved := u.reserved + size, totalAllocated := Wrap(u.totalAllocated + size),
         allocateCalls := Wrap(u.allocateCalls + 1), small := Wrap(u.small + if size < 0x100 then 1 else 0),
         large := Wrap(u.large + if size < 0x100 then 0 else 1))
  {
    WrapOf(u.large);
    WrapOf(u.small);
    WrapOf(u.available - size);
    WrapOf(u.reserved + size);
    hide Wrap;
  }

  lemma Freed(v: Usage, size: nat)
    ensures Apply(v, Dispose(false, size)) ==
      v.(totalDeallocated := Wrap(v.totalDeallocated + size), deallocateCalls := Wrap(v.deallocateCalls + 1),
         available := Wrap(v.available + size), reserved := Wrap(v.reserved - size))
    ensures forall w: Usage :: Apply(w, Dispose(true, size)) == w
  {
    hide Wrap;
  }

  // ------------------------------------------------------------------ the code

  class Memory {
    var totalAllocated: uint64
    var totalDeallocated: uint64
    var allocateCalls: uint64
    var deallocateCalls: uint64
    var small: uint64
    var large: uint64
    var max: uint64
    var soft: uint64
    var reserved: uint64
    var available: uint64

    ghost function Value(): Usage
      reads this
    {
      Usage(totalAllocated, totalDeallocated, allocateCalls, deallocateCalls, small, large, max, soft, reserved, available)
    }

    constructor ()
      ensures Value() == ZERO
    {
      totalAllocated, totalDeallocated, allocateCalls, deallocateCalls := 0, 0, 0, 0;
      small, large, max, soft, reserved, available := 0, 0, 0, 0, 0, 0;
    }

    // jlong allocate0(jint size); false is an OutOfMemoryError.
    method Allocate0(size: int, breach: seq<Op>, softBreach: seq<Op>, mallocFails: bool) returns (ok: bool)
      modifies this
      ensures var op := Allocate(size, breach, softBreach, mallocFails);
        Value() == Apply(old(Value()), op) && (ok <==> !Refused(old(Value()), op) && !mallocFails)
      decreases Allocate(size, breach, softBreach, mallocFails), 0
    {
      ghost var op := Allocate(size, breach, softBreach, mallocFails);
      if available < Wrap(size) {
        PerformAll(breach);
        if available < Wrap(size) {
          return false;
        }
      } else if reserved > soft {
        PerformAll(softBreach);
      }
      assert Value() == Prepared(old(Value()), op) && !Refused(old(Value()), op);
      AllocateIs(old(Value()), op);
      hide *;
      ok := Take(size, mallocFails);
    }

    // The rest of allocate0, once the limit has been checked.
    method Take(size: int, mallocFails: bool) returns (ok: bool)
      modifies `available, `reserved, `totalAllocated, `allocateCalls, `small, `large
      ensures Value() == Charge(old(Value()), size, mallocFails) && (ok <==> !mallocFails)
    {
      hide Wrap;
      available := Wrap(available - size);
      reserved := Wrap(reserved + size);
      if mallocFails {
        return false;
      }
      totalAllocated := Wrap(totalAllocated + size);
      allocateCalls := Wrap(allocateCalls + 1);
      if size <= 255 {
        small := Wrap(small + 1);
      } else {
        large := Wrap(large + 1);
      }
      return true;
    }

    // void disposeNative0(jlong address, jlong size)
    method DisposeNative0(isNull: bool, size: int)
      modifies `totalDeallocated, `deallocateCalls, `available, `reserved
      ensures Value() == Apply(old(Value()), Dispose(isNull, size))
    {
      hide Wrap;
      if !isNull {
        totalDeallocated := Wrap(totalDeallocated + size);
        deallocateCalls := Wrap(deallocateCalls + 1);
        available := Wrap(available + size);
        reserved := Wrap(reserved - size);
      }
    }

    // void setMaxDirectMemorySize(jlong size)
    method SetMaxDirectMemorySize(size: int)
      modifies `max, `available
      ensures Value() == Apply(old(Value()), SetMax(size))
    {
      var delta := size - max;
      max := Wrap(size);
      available := Wrap(available + delta);
    }

    // void setSoftDirectMemorySize(jlong size)
    method SetSoftDirectMemorySize(size: int)
      modifies `soft
      ensures Value() == Apply(old(Value()), SetSoft(size))
    {
      soft := Wrap(size);
    }

    method Perform(op: Op)
      modifies this
      ensures Value() == Apply(old(Value()), op)
      decreases op, 1
    {
      match op
      case Allocate(size, breach, softBreach, fails) =>
        var ok := Allocate0(size, breach, softBreach, fails);
      case Dispose(isNull, size) => DisposeNative0(isNull, size);
      case SetMax(size) => SetMaxDirectMemorySize(size);
      case SetSoft(size) => SetSoftDirectMemorySize(size);
    }

    method PerformAll(ops: seq<Op>)
      modifies this
      ensures Value() == ApplyAll(old(Value()), ops)
      decreases ops, 0
    {
      for i := 0 to |ops|
        invariant Value() == ApplyAll(old(Value()), ops[..i])
      {
        Perform(ops[i]);
        assert ops[..i + 1][..i] == ops[..i];
      }
      assert ops[..|ops|] == ops;
    }
  }
}
