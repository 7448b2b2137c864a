/** Round-robin scheduling of harts and the load reservations of LR and SC
    (riscv/sim.cc, riscv/insns/lr_w.h, lr_d.h, sc_w.h, sc_d.h, take_trap). */
module Scheduler {
  import opened Arith
  import opened Powers
  import opened Bytes

  const INTERLEAVE: nat := 5000
  const NONE: u64 := W64 - 1       // (reg_t)-1

  /** Bytes a store writes, and those an LR or SC accesses. */
  type Size = w: nat | w == 1 || w == 2 || w == 4 || w == 8 witness 1
  type Width = w: Size | w == 4 || w == 8 witness 4

  /** An instruction as far as reservations go.  faults says whether translation
      refuses the access; every other cause of a trap is Raise. */
  datatype Op =
    | LoadReserved(addr: u64, width: Width, faults: bool)
    | StoreConditional(addr: u64, width: Width, faults: bool, val: u64)
    | Store(addr: u64, size: Size, faults: bool, val: u64)
    | Raise
    | Other

  datatype Event =
    | Lr(hart: nat, addr: u64)
    | ScDone(hart: nat, addr: u64, size: Size, val: u64)
    | ScFailed(hart: nat, addr: u64)
    | Stored(hart: nat, addr: u64, size: Size, val: u64)
    | Trap(hart: nat)
    | Ran(hart: nat)
    | TurnEnd(hart: nat)

  // ---- what a trace must satisfy

  /** The hart went on: no other hart ran, no trap was taken, no reservation was
      made and the turn did not end. */
  predicate GoesOn(e: Event, hart: nat) {
    e.hart == hart && !e.Trap? && !e.TurnEnd? && !e.Lr?
  }

  ghost predicate Undisturbed(trace: seq<Event>, j: nat, k: nat, hart: nat) {
    forall i :: j < i < k && i < |trace| ==> GoesOn(trace[i], hart)
  }

  /** Hart's last reservation is of addr, made at j and still open at k. */
  ghost predicate Reserved(trace: seq<Event>, j: nat, k: nat, hart: nat, addr: u64) {
    j < k <= |trace| && trace[j] == Lr(hart, addr) && Undisturbed(trace, j, k, hart)
  }

  ghost predicate Open(trace: seq<Event>, k: nat, hart: nat, addr: u64) {
    exists j :: Reserved(trace, j, k, hart, addr)
  }

  /** A store-conditional that does not trap completes if and only if its hart's
      last reservation is of its address and still open. */
  ghost predicate ScSafe(trace: seq<Event>) {
    forall k :: 0 <= k < |trace| ==> ScSafeAt(trace, k)
  }

  ghost predicate ScSafeAt(trace: seq<Event>, k: nat)
    requires k < |trace|
  {
    && (trace[k].ScDone? ==> Open(trace, k, trace[k].hart, trace[k].addr))
    && (trace[k].ScFailed? ==> !Open(trace, k, trace[k].hart, trace[k].addr))
  }

  lemma UndisturbedExtends(trace: seq<Event>, e: Event, j: nat, k: nat, hart: nat)
    requires k <= |trace|
    ensures Undisturbed(trace + [e], j, k, hart) <==> Undisturbed(trace, j, k, hart)
  {
    hide GoesOn;
    assert forall i :: 0 <= i < |trace| ==> (trace + [e])[i] == trace[i];
    if Undisturbed(trace + [e], j, k, hart) {
      forall i | j < i < k ensures GoesOn(trace[i], hart) { assert (trace + [e])[i] == trace[i]; }
    }
  }

  lemma UndisturbedNext(trace: seq<Event>, e: Event, j: nat, hart: nat)
    requires j < |trace|
    ensures Undisturbed(trace + [e], j, |trace| + 1, hart)
            <==> Undisturbed(trace, j, |trace|, hart) && GoesOn(e, hart)
  {
    var t := trace + [e];
    UndisturbedExtends(trace, e, j, |trace|, hart);
    hide GoesOn;
    assert t[|trace|] == e;
  }

  lemma OpenExtends(trace: seq<Event>, e: Event, k: nat, hart: nat, addr: u64)
    requires k <= |trace|
    ensures Open(trace + [e], k, hart, addr) <==> Open(trace, k, hart, addr)
  {
    hide Undisturbed;
    forall j: nat ensures Reserved(trace + [e], j, k, hart, addr) <==> Reserved(trace, j, k, hart, addr) {
      UndisturbedExtends(trace, e, j, k, hart);
    }
    if j :| Reserved(trace, j, k, hart, addr) { assert Reserved(trace + [e], j, k, hart, addr); }
  }

  lemma ScSafeExtends(trace: seq<Event>, e: Event)
    requires ScSafe(trace)
    requires e.ScDone? ==> Open(trace, |trace|, e.hart, e.addr)
    requires e.ScFailed? ==> !Open(trace, |trace|, e.hart, e.addr)
    ensures ScSafe(trace + [e])
  {
    hide Open;
    var t := trace + [e];
    forall k | 0 <= k < |t| ensures ScSafeAt(t, k) {
      if t[k].ScDone? || t[k].ScFailed? { OpenExtends(trace, e, k, t[k].hart, t[k].addr); }
      if k < |trace| { assert ScSafeAt(trace, k) && t[k] == trace[k]; }
    }
  }

  /** An event of the hart that may hold a reservation: an LR opens one and
      closes any other, a trap or the end of the turn closes it, and nothing
      else changes what is open. */
  lemma OpenNext(trace: seq<Event>, e: Event, hart: nat, addr: u64)
    ensures Open(trace + [e], |trace| + 1, hart, addr)
            <==> e == Lr(hart, addr) || (GoesOn(e, hart) && Open(trace, |trace|, hart, addr))
  {
    var t, k := trace + [e], |trace|;
    if e == Lr(hart, addr) {
      assert Reserved(t, k, k + 1, hart, addr);
    } else if GoesOn(e, hart) && Open(trace, k, hart, addr) {
      var j: nat :| Reserved(trace, j, k, hart, addr);
      UndisturbedNext(trace, e, j, hart);
      assert Reserved(t, j, k + 1, hart, addr);
    }
    if Open(t, k + 1, hart, addr) {
      var j: nat :| Reserved(t, j, k + 1, hart, addr);
      if j < k {
        UndisturbedNext(trace, e, j, hart);
        assert Reserved(trace, j, k, hart, addr);
      }
    }
  }

  /** A trap or the end of a turn leaves no reservation open. */
  lemma NothingOpen(trace: seq<Event>, e: Event, t: seq<Event>)
    requires t == trace + [e] && (e.Trap? || e.TurnEnd?)
    ensures forall h, a :: !Open(t, |t|, h, a)
  {
    hide Open;
    forall h, a ensures !Open(t, |t|, h, a) { OpenNext(trace, e, h, a); }
  }

  // ---- memory, as the events left it

  /** A misaligned access is refused, as is one that ends outside memory. */
  predicate Refused(size: nat, addr: u64, width: Size, faults: bool) {
    addr % width != 0 || faults || addr + width > size
  }

  lemma NotNone(addr: u64, width: Width)
    requires addr % width == 0
    ensures addr != NONE
  {
  }

  lemma Granted(size: nat, addr: u64, width: Size, faults: bool)
    requires !Refused(size, addr, width, faults)
    ensures addr + width <= size
  {
  }

  /** What a load of 4 or 8 bytes leaves in a register. */
  function Loaded(b: seq<u8>): u64
    requires |b| == 4 || |b| == 8
  {
    UnsignedBound(b);
    Pow2Values();
    var v := Unsigned(b);
    if |b| == 4 && v >= 0x8000_0000 then v + (W64 - W32) else v
  }

  function Put(mem: seq<u8>, addr: nat, b: seq<u8>): (mem': seq<u8>)
    requires addr + |b| <= |mem|
    ensures |mem'| == |mem| && mem'[addr..addr + |b|] == b
    ensures forall p :: 0 <= p < |mem| && !(addr <= p < addr + |b|) ==> mem'[p] == mem[p]
  {
    mem[..addr] + b + mem[addr + |b|..]
  }

  /** A doubleword stored is the doubleword loaded. */
  lemma LoadsWhatWasStored(mem: seq<u8>, addr: nat, val: u64)
    requires addr + 8 <= |mem|
    ensures Loaded(Put(mem, addr, LowBytes(val, 8))[addr..addr + 8]) == val
  {
    Pow2Values();
    UnsignedOfLow(val, 8);
  }

  function Applied(mem: seq<u8>, e: Event): (mem': seq<u8>)
    ensures |mem'| == |mem|
  {
    if (e.Stored? || e.ScDone?) && e.addr + e.size <= |mem| then Put(mem, e.addr, LowBytes(e.val, e.size)) else mem
  }

  function Replay(trace: seq<Event>, k: nat, mem: seq<u8>): (mem': seq<u8>)
    requires k <= |trace|
    ensures |mem'| == |mem|
  {
    if k == 0 then mem else Applied(Replay(trace, k - 1, mem), trace[k - 1])
  }

  /** An event acts on what the events before it left. */
  lemma ReplayNext(trace: seq<Event>, e: Event, mem: seq<u8>)
    ensures Replay(trace + [e], |trace| + 1, mem) == Applied(Replay(trace, |trace|, mem), e)
  {
    ReplayPrefix(trace, e, |trace|, mem);
  }

  lemma {:induction false} ReplayPrefix(trace: seq<Event>, e: Event, k: nat, mem: seq<u8>)
    requires k <= |trace|
    ensures Replay(trace + [e], k, mem) == Replay(trace, k, mem)
  {
    if k > 0 { ReplayPrefix(trace, e, k - 1, mem); }
  }

  /** The event wrote some of the n bytes from addr on. */
  predicate Overwrites(e: Event, addr: u64, n: nat) {
    (e.Stored? || e.ScDone?) && e.addr < addr + n && addr < e.addr + e.size
  }

  lemma {:induction false} Quiet(trace: seq<Event>, j: nat, k: nat, addr: u64, n: nat, mem: seq<u8>)
    requires j <= k <= |trace| && addr + n <= |mem| && forall i :: j <= i < k ==> !Overwrites(trace[i], addr, n)
    ensures Replay(trace, k, mem)[addr..addr + n] == Replay(trace, j, mem)[addr..addr + n]
    decreases k - j
  {
    if j < k {
      Quiet(trace, j, k - 1, addr, n, mem);
      Untouched(Replay(trace, k - 1, mem), trace[k - 1], addr, n);
    }
  }

  lemma Untouched(mem: seq<u8>, e: Event, addr: u64, n: nat)
    requires addr + n <= |mem| && !Overwrites(e, addr, n)
    ensures Applied(mem, e)[addr..addr + n] == mem[addr..addr + n]
  {
    hide LowBytes;
    var m := Applied(mem, e);
    forall p | addr <= p < addr + n ensures m[p] == mem[p] {}
  }

  /** LR/SC is atomic: when an SC completes, the last write to any of n bytes
      from its address on since the matching LR, if any, was its own hart's; if
      there was none, the bytes are those that the LR saw. */
  lemma ScIsAtomic(trace: seq<Event>, k: nat, n: nat, mem: seq<u8>) returns (j: nat)
    requires ScSafe(trace) && k < |trace| && trace[k].ScDone? && trace[k].addr + n <= |mem|
    ensures j < k && trace[j] == Lr(trace[k].hart, trace[k].addr)
    ensures forall i :: j < i < k ==> trace[i].hart == trace[k].hart && !trace[i].Lr?
    ensures (forall i :: j < i < k ==> !Overwrites(trace[i], trace[k].addr, n)) ==>
              var a := trace[k].addr;
              Replay(trace, k, mem)[a..a + n] == Replay(trace, j, mem)[a..a + n]
  {
    assert ScSafeAt(trace, k);
    j :| Reserved(trace, j, k, trace[k].hart, trace[k].addr);
    if forall i :: j < i < k ==> !Overwrites(trace[i], trace[k].addr, n) {
      Quiet(trace, j, k, trace[k].addr, n, mem);
    }
  }

  // ---- what one hart does

  predicate Traps(size: nat, reserved: u64, op: Op) {
    match op
    case LoadReserved(addr, width, faults) => Refused(size, addr, width, faults)
    case StoreConditional(addr, width, faults, _) => addr == reserved && Refused(size, addr, width, faults)
    case Store(addr, width, faults, _) => Refused(size, addr, width, faults)
    case Raise => true
    case Other => false
  }

  /** What an instruction does, short of taking its trap. */
  function Does(hart: nat, size: nat, reserved: u64, op: Op): seq<Event> {
    match op
    case LoadReserved(addr, _, _) => [Lr(hart, addr)]
    case StoreConditional(addr, width, _, val) =>
      if addr != reserved then [ScFailed(hart, addr)]
      else if Traps(size, reserved, op) then []
      else [ScDone(hart, addr, width, val)]
    case Store(addr, width, _, val) => if Traps(size, reserved, op) then [] else [Stored(hart, addr, width, val)]
    case Raise => []
    case Other => [Ran(hart)]
  }

  /** The events of a hart that runs ops with the given reservation.  A trap
      ends the run; the reservation survives a store and either outcome of SC. */
  function Events(hart: nat, size: nat, reserved: u64, ops: seq<Op>): seq<Event>
    decreases |ops|
  {
    if ops == [] then []
    else
      Does(hart, size, reserved, ops[0])
      + if Traps(size, reserved, ops[0]) then [Trap(hart)]
        else Events(hart, size, ReservedAfter(reserved, ops[0]), ops[1..])
  }

  function ReservedAfter(reserved: u64, op: Op): u64 {
    if op.LoadReserved? then op.addr else reserved
  }

  /** The events that end the run: what remains to be done after op k. */
  function Rest(hart: nat, size: nat, trapped: bool, reserved: u64, ops: seq<Op>, k: nat): seq<Event>
    requires k <= |ops|
  {
    if trapped then [Trap(hart)] else Events(hart, size, reserved, ops[k..])
  }

  lemma RestAll(hart: nat, size: nat, reserved: u64, ops: seq<Op>)
    ensures Rest(hart, size, false, reserved, ops, 0) == Events(hart, size, reserved, ops)
  {
    assert ops[0..] == ops;
  }

  lemma RestNone(hart: nat, size: nat, trapped: bool, reserved: u64, ops: seq<Op>, k: nat)
    requires k == |ops| || (trapped && k <= |ops|)
    ensures Rest(hart, size, trapped, reserved, ops, k) == if trapped then [Trap(hart)] else []
  {
  }

  lemma RestNext(hart: nat, size: nat, reserved: u64, ops: seq<Op>, k: nat, t: seq<Event>, goal: seq<Event>)
    requires k < |ops| && goal == t + Rest(hart, size, false, reserved, ops, k)
    ensures goal == t + Does(hart, size, reserved, ops[k])
                 + Rest(hart, size, Traps(size, reserved, ops[k]), ReservedAfter(reserved, ops[k]), ops, k + 1)
  {
    hide Does, Traps, ReservedAfter;
    assert ops[k..] != [] && ops[k..][0] == ops[k] && ops[k..][1..] == ops[k + 1..];
  }

  // ---- turns

  /** The hart that unit step k of a run from the given position goes to. */
  function Turn(currentStep: nat, currentProc: nat, procs: nat, k: nat): nat
    requires procs > 0
  {
    (currentProc + (currentStep + k) / INTERLEAVE) % procs
  }

  /** One entry for each unit step granted by step(n). */
  function Grants(currentStep: nat, currentProc: nat, procs: nat, n: nat): (g: seq<nat>)
    requires procs > 0
    ensures |g| == n
  {
    seq(n, k requires 0 <= k < n => Turn(currentStep, currentProc, procs, k))
  }

  lemma ModShift(a: nat, q: nat, r: nat, p: nat)
    requires p > 0
    ensures ((a + q) % p + r) % p == (a + (q + r)) % p
  {
    DivMod(a + q, p);
    DivMod((a + q) % p + r, p);
    var x, y := (a + q) / p, ((a + q) % p + r) / p;
    AddMul(x, y, p);
    ModIs(a + (q + r), x + y, ((a + q) % p + r) % p, p);
  }

  lemma Carry(s: nat, n: nat, k: nat)
    ensures (s + (n + k)) / INTERLEAVE == (s + n) / INTERLEAVE + ((s + n) % INTERLEAVE + k) / INTERLEAVE
    ensures (s + (n + k)) % INTERLEAVE == ((s + n) % INTERLEAVE + k) % INTERLEAVE
  {
  }

  lemma TurnSplit(s: nat, c: nat, procs: nat, n: nat, k: nat)
    requires procs > 0
    ensures Turn((s + n) % INTERLEAVE, Turn(s, c, procs, n), procs, k) == Turn(s, c, procs, n + k)
  {
    Carry(s, n, k);
    ModShift(c, (s + n) / INTERLEAVE, ((s + n) % INTERLEAVE + k) / INTERLEAVE, procs);
  }

  /** However a run is cut into calls, the unit steps go to the same harts. */
  lemma GrantsSplit(s: nat, c: nat, procs: nat, n: nat, m: nat)
    requires procs > 0
    ensures Grants(s, c, procs, n + m)
         == Grants(s, c, procs, n) + Grants((s + n) % INTERLEAVE, Turn(s, c, procs, n), procs, m)
  {
    var whole, rest := Grants(s, c, procs, n + m), Grants((s + n) % INTERLEAVE, Turn(s, c, procs, n), procs, m);
    forall k | 0 <= k < m ensures whole[n + k] == rest[k] {
      TurnSplit(s, c, procs, n, k);
    }
  }

  /** From the start of a turn each hart gets exactly INTERLEAVE unit steps in
      a row, then the next hart. */
  lemma WholeTurns(c: nat, procs: nat, t: nat, k: nat)
    requires procs > 0 && k < INTERLEAVE
    ensures Turn(0, c, procs, t * INTERLEAVE + k) == (c + t) % procs
  {
    ModIs(t * INTERLEAVE + k, t, k, INTERLEAVE);
  }

  // ---- the harts in rotation

  /** Turns go round from hart 0. */
  function HartOf(turn: nat, procs: nat): nat
    requires procs > 0
  {
    turn % procs
  }

  /** Turns that ended within the first k events. */
  function TurnsEnded(trace: seq<Event>, k: nat): nat
    requires k <= |trace|
  {
    if k == 0 then 0 else TurnsEnded(trace, k - 1) + if trace[k - 1].TurnEnd? then 1 else 0
  }

  /** Whoever acts is the hart whose turn it is, counting from hart 0, and that
      is now hart c. */
  ghost predicate InRotation(trace: seq<Event>, procs: nat, c: nat) {
    && procs > 0
    && (forall p :: 0 <= p < |trace| ==> trace[p].hart == HartOf(TurnsEnded(trace, p), procs))
    && c == HartOf(TurnsEnded(trace, |trace|), procs)
  }

  /** After the given number of whole turns and s steps of the next, each turn's
      steps went to the hart whose turn it was. */
  ghost predicate GrantedByTurn(granted: seq<nat>, procs: nat, turns: nat, s: nat) {
    && procs > 0 && |granted| == turns * INTERLEAVE + s
    && forall g :: 0 <= g < |granted| ==> granted[g] == HartOf(g / INTERLEAVE, procs)
  }

  lemma {:induction false} TurnsOfPrefix(t: seq<Event>, u: seq<Event>, k: nat)
    requires k <= |t|
    ensures TurnsEnded(t + u, k) == TurnsEnded(t, k)
  {
    if k > 0 { TurnsOfPrefix(t, u, k - 1); }
  }

  ghost predicate ActsAlone(events: seq<Event>, c: nat) {
    forall p :: 0 <= p < |events| ==> events[p].hart == c && !events[p].TurnEnd?
  }

  lemma {:induction false} NoTurnEnds(t: seq<Event>, u: seq<Event>, c: nat, k: nat)
    requires ActsAlone(u, c) && |t| <= k <= |t + u|
    ensures TurnsEnded(t + u, k) == TurnsEnded(t, |t|)
  {
    if k == |t| {
      TurnsOfPrefix(t, u, k);
    } else {
      assert (t + u)[k - 1] == u[k - 1 - |t|];
      NoTurnEnds(t, u, c, k - 1);
    }
  }

  lemma RunInRotation(t: seq<Event>, u: seq<Event>, procs: nat, c: nat)
    requires InRotation(t, procs, c) && ActsAlone(u, c)
    ensures InRotation(t + u, procs, c) && TurnsEnded(t + u, |t + u|) == TurnsEnded(t, |t|)
  {
    hide TurnsEnded, HartOf;
    forall p | 0 <= p < |t + u| ensures (t + u)[p].hart == HartOf(TurnsEnded(t + u, p), procs) {
      if p < |t| { TurnsOfPrefix(t, u, p); } else { NoTurnEnds(t, u, c, p); }
    }
    NoTurnEnds(t, u, c, |t + u|);
  }

  lemma EndInRotation(t: seq<Event>, procs: nat, c: nat, c': nat)
    requires InRotation(t, procs, c) && c' == HartOf(TurnsEnded(t, |t|) + 1, procs)
    ensures InRotation(t + [TurnEnd(c)], procs, c')
    ensures TurnsEnded(t + [TurnEnd(c)], |t| + 1) == TurnsEnded(t, |t|) + 1
  {
    OneMoreTurn(t, c);
    hide TurnsEnded, HartOf;
    var e := [TurnEnd(c)];
    forall p | 0 <= p < |t + e| ensures (t + e)[p].hart == HartOf(TurnsEnded(t + e, p), procs) {
      TurnsOfPrefix(t, e, p);
      assert p < |t| ==> (t + e)[p] == t[p];
    }
  }

  lemma OneMoreTurn(t: seq<Event>, c: nat)
    ensures TurnsEnded(t + [TurnEnd(c)], |t| + 1) == TurnsEnded(t, |t|) + 1
  {
    TurnsOfPrefix(t, [TurnEnd(c)], |t|);
  }

  lemma NextHart(n: nat, procs: nat)
    requires procs > 0
    ensures HartOf(n + 1, procs) == (HartOf(n, procs) + 1) % procs
  {
    ModShift(n, 0, 1, procs);
    assert n + 0 == n && n % procs < procs;
    SmallTurn(n % procs, procs);
  }

  lemma Rotation(trace: seq<Event>, procs: nat, c: nat)
    requires InRotation(trace, procs, c)
    ensures procs > 0 && c == HartOf(TurnsEnded(trace, |trace|), procs)
  {
  }

  lemma TurnFilled(granted: seq<nat>, procs: nat, turns: nat)
    requires GrantedByTurn(granted, procs, turns, INTERLEAVE)
    ensures GrantedByTurn(granted, procs, turns + 1, 0)
  {
  }

  lemma {:induction false} EventsOfOne(hart: nat, size: nat, reserved: u64, ops: seq<Op>)
    ensures ActsAlone(Events(hart, size, reserved, ops), hart)
    decreases |ops|
  {
    if ops != [] { EventsOfOne(hart, size, ReservedAfter(reserved, ops[0]), ops[1..]); }
  }

  lemma GrantInTurn(granted: seq<nat>, procs: nat, turns: nat, s: nat, c: nat, steps: nat)
    requires GrantedByTurn(granted, procs, turns, s) && c == HartOf(turns, procs) && s + steps <= INTERLEAVE
    ensures GrantedByTurn(granted + seq(steps, k => c), procs, turns, s + steps)
  {
    hide HartOf;
    var g' := granted + seq(steps, k => c);
    forall g | 0 <= g < |g'| ensures g'[g] == HartOf(g / INTERLEAVE, procs) {
      if g >= |granted| { assert g / INTERLEAVE == turns; }
    }
  }

  // ---- the simulator

  class Simulator {
    const reservation: array<u64>
    var memory: seq<u8>
    var currentStep: nat
    var currentProc: nat
    ghost const initial: seq<u8>
    ghost var trace: seq<Event>
    ghost var granted: seq<nat>

    ghost predicate Valid()
      reads `currentStep, `currentProc
    {
      reservation.Length > 0 && currentStep < INTERLEAVE && currentProc < reservation.Length
    }

    /** Only the current hart can hold a reservation; it holds one if and only if
        its last LR was of that address and it went on alone since. */
    ghost predicate Exclusive()
      reads `currentProc, `trace, reservation
    {
      && currentProc < reservation.Length
      && (forall h :: 0 <= h < reservation.Length && h != currentProc ==> reservation[h] == NONE)
      && (reservation[currentProc] != NONE ==> Open(trace, |trace|, currentProc, reservation[currentProc]))
      && (forall h, a :: Open(trace, |trace|, h, a) ==> h == currentProc && a == reservation[currentProc])
    }

    /** Memory holds what the events so far have written. */
    ghost predicate Recorded()
      reads `trace, `memory
    {
      memory == Replay(trace, |trace|, initial)
    }

    ghost predicate Safe()
      reads `currentStep, `currentProc, `trace, `memory, reservation
    {
      Valid() && Exclusive() && ScSafe(trace) && Recorded()
    }

    /** Each hart acted in its own turns, of INTERLEAVE granted steps each. */
    ghost predicate Rotates()
      reads `currentStep, `currentProc, `trace, `granted
    {
      && InRotation(trace, reservation.Length, currentProc)
      && GrantedByTurn(granted, reservation.Length, TurnsEnded(trace, |trace|), currentStep)
    }

    constructor (procs: nat, memory: seq<u8>)
      requires procs > 0
      ensures Safe() && Rotates() && reservation.Length == procs && this.memory == memory
      ensures trace == [] && granted == [] && currentStep == 0 && currentProc == 0 && fresh(reservation)
    {
      reservation := new u64[procs](_ => NONE);
      this.memory, initial := memory, memory;
      currentStep, currentProc := 0, 0;
      trace, granted := [], [];
    }

    /** Record an event other than a reservation, of a hart that goes on. */
    ghost method Log(e: Event)
      requires Valid() && Exclusive() && ScSafe(trace) && memory == Applied(Replay(trace, |trace|, initial), e)
      requires e.hart == currentProc && !e.Trap? && !e.TurnEnd? && !e.Lr?
      requires e.ScDone? ==> Open(trace, |trace|, e.hart, e.addr)
      requires e.ScFailed? ==> !Open(trace, |trace|, e.hart, e.addr)
      modifies `trace
      ensures Safe() && trace == old(trace) + [e]
    {
      hide Open, ScSafe, Replay, Applied;
      trace := trace + [e];
      ScSafeExtends(old(trace), e);
      ReplayNext(old(trace), e, initial);
      forall h, a ensures Open(trace, |trace|, h, a) <==> h == currentProc && Open(old(trace), |old(trace)|, h, a) {
        OpenNext(old(trace), e, h, a);
      }
    }

    /** take_trap gives the reservation up. */
    method TakeTrap()
      requires Safe()
      modifies reservation, `trace
      ensures Safe() && trace == old(trace) + [Trap(currentProc)] && reservation[currentProc] == NONE
    {
      hide Open, ScSafe, Replay;
      reservation[currentProc] := NONE;
      trace := trace + [Trap(currentProc)];
      ScSafeExtends(old(trace), Trap(currentProc));
      ReplayNext(old(trace), Trap(currentProc), initial);
      NothingOpen(old(trace), Trap(currentProc), trace);
    }

    /** lr_w, lr_d: the reservation is made before the load, which may trap; lr_w
        extends the sign of what it loads. */
    method ExecuteLr(addr: u64, width: Width, faults: bool) returns (trapped: bool, rd: u64)
      requires Safe()
      modifies reservation, `trace
      ensures Safe() && trapped == Refused(|memory|, addr, width, faults)
      ensures !trapped ==> rd == Loaded(memory[addr..addr + width])
      ensures reservation[currentProc] == addr && trace == old(trace) + [Lr(currentProc, addr)]
    {
      hide Open, ScSafe, Replay;
      reservation[currentProc] := addr;
      trace := trace + [Lr(currentProc, addr)];
      ScSafeExtends(old(trace), Lr(currentProc, addr));
      ReplayNext(old(trace), Lr(currentProc, addr), initial);
      forall h, a ensures Open(trace, |trace|, h, a) <==> h == currentProc && a == addr {
        OpenNext(old(trace), Lr(currentProc, addr), h, a);
      }
      trapped := Refused(|memory|, addr, width, faults);
      rd := if trapped then 0 else Loaded(memory[addr..addr + width]);
    }

    /** sc_w, sc_d: rd is 0 when the store was done and 1 when it was not.  An
        unreserved SC to the all-ones address matches NONE but is misaligned. */
    method ExecuteSc(addr: u64, width: Width, faults: bool, val: u64) returns (trapped: bool, rd: nat)
      requires Safe()
      modifies `memory, `trace
      ensures Safe()
      ensures trapped == (addr == reservation[currentProc] && Refused(|old(memory)|, addr, width, faults))
      ensures !trapped ==> rd == if Open(old(trace), |old(trace)|, currentProc, addr) then 0 else 1
      ensures !trapped ==> rd == if addr == reservation[currentProc] then 0 else 1
      ensures !trapped && rd == 0 ==>
                && addr + width <= |old(memory)| && memory == Put(old(memory), addr, LowBytes(val, width))
                && trace == old(trace) + [ScDone(currentProc, addr, width, val)]
      ensures trapped || rd == 1 ==> memory == old(memory)
      ensures trapped ==> trace == old(trace)
      ensures !trapped && rd == 1 ==> trace == old(trace) + [ScFailed(currentProc, addr)]
    {
      hide Open, ScSafe, Replay, Put, LowBytes;
      trapped, rd := false, 0;
      if addr == reservation[currentProc] {
        if Refused(|memory|, addr, width, faults) {
          trapped := true;
        } else {
          NotNone(addr, width);
          memory := Put(memory, addr, LowBytes(val, width));
          Log(ScDone(currentProc, addr, width, val));
        }
      } else {
        rd := 1;
        Log(ScFailed(currentProc, addr));
      }
    }

    method Execute(op: Op) returns (trapped: bool)
      requires Safe()
      modifies reservation, `memory, `trace
      ensures Safe() && |memory| == |old(memory)|
      ensures trapped == Traps(|memory|, old(reservation[currentProc]), op)
      ensures reservation[currentProc] == ReservedAfter(old(reservation[currentProc]), op)
      ensures trace == old(trace) + Does(currentProc, |memory|, old(reservation[currentProc]), op)
    {
      hide Open, ScSafe, Replay, Put, LowBytes, Refused;
      trapped := false;
      var rd;
      match op {
        case LoadReserved(addr, width, faults) =>
          trapped, rd := ExecuteLr(addr, width, faults);
        case StoreConditional(addr, width, faults, val) =>
          trapped, rd := ExecuteSc(addr, width, faults, val);
        case Store(addr, width, faults, val) =>
          trapped := Refused(|memory|, addr, width, faults);
          if !trapped {
            Granted(|memory|, addr, width, faults);
            memory := Put(memory, addr, LowBytes(val, width));
            Log(Stored(currentProc, addr, width, val));
          }
        case Raise =>
          trapped := true;
        case Other =>
          Log(Ran(currentProc));
      }
    }

    /** Any finite run of the current hart; a trap ends it. */
    method RunHart(ops: seq<Op>)
      requires Safe()
      modifies reservation, `memory, `trace
      ensures Safe() && |memory| == |old(memory)|
      ensures trace == old(trace) + Events(currentProc, |memory|, old(reservation[currentProc]), ops)
    {
      assert currentProc < reservation.Length;
      hide *;
      var k, trapped := 0, false;
      ghost var size := |memory|;
      ghost var goal := trace + Events(currentProc, size, reservation[currentProc], ops);
      RestAll(currentProc, size, reservation[currentProc], ops);
      while k < |ops| && !trapped
        invariant 0 <= k <= |ops| && currentProc < reservation.Length && Safe() && |memory| == size
        invariant goal == trace + Rest(currentProc, size, trapped, reservation[currentProc], ops, k)
      {
        RestNext(currentProc, size, reservation[currentProc], ops, k, trace, goal);
        trapped := Execute(ops[k]);
        k := k + 1;
      }
      RestNone(currentProc, size, trapped, reservation[currentProc], ops, k);
      if trapped { TakeTrap(); }
    }

    /** The end of a turn: the reservation goes before the next hart runs. */
    method EndTurn()
      requires Exclusive() && ScSafe(trace) && Recorded() && currentStep == INTERLEAVE
      modifies reservation, `trace, `currentStep, `currentProc
      ensures Safe() && currentStep == 0 && currentProc == (old(currentProc) + 1) % reservation.Length
      ensures trace == old(trace) + [TurnEnd(old(currentProc))]
    {
      hide ScSafe, Open, Replay;
      Wraps(currentProc, reservation.Length);
      currentStep := 0;
      reservation[currentProc] := NONE;
      trace := trace + [TurnEnd(currentProc)];
      ScSafeExtends(old(trace), TurnEnd(old(currentProc)));
      ReplayNext(old(trace), TurnEnd(old(currentProc)), initial);
      NothingOpen(old(trace), TurnEnd(old(currentProc)), trace);
      currentProc := currentProc + 1;
      if currentProc == reservation.Length { currentProc := 0; }
    }

    /** procs[current_proc]->step(steps), and the turn's end if that is reached.
        What the hart executes is arbitrary. */
    method Advance(steps: nat)
      requires Safe() && Rotates() && 0 < steps <= INTERLEAVE - currentStep
      modifies reservation, `memory, `trace, `granted, `currentStep, `currentProc
      ensures Safe() && Rotates() && old(trace) <= trace && |memory| == |old(memory)|
      ensures granted == old(granted) + seq(steps, k => old(currentProc))
      ensures if old(currentStep) + steps == INTERLEAVE then
                currentStep == 0 && currentProc == (old(currentProc) + 1) % reservation.Length
              else
                currentStep == old(currentStep) + steps && currentProc == old(currentProc)
    {
      hide ScSafe, Open, Recorded, Events, InRotation, GrantedByTurn, TurnsEnded, ActsAlone, HartOf;
      var ops: seq<Op> := *;
      ghost var procs, c := reservation.Length, currentProc;
      Rotation(trace, procs, c);
      ghost var ran := Events(c, |memory|, reservation[c], ops);
      EventsOfOne(c, |memory|, reservation[c], ops);
      RunInRotation(trace, ran, procs, c);
      RunHart(ops);
      ghost var turns := TurnsEnded(trace, |trace|);
      GrantInTurn(granted, procs, turns, currentStep, c, steps);
      granted := granted + seq(steps, k => c);
      currentStep := currentStep + steps;
      if currentStep == INTERLEAVE {
        NextHart(turns, procs);
        EndInRotation(trace, procs, c, HartOf(turns + 1, procs));
        TurnFilled(granted, procs, turns);
        EndTurn();
      }
    }

    /** sim_t::step: always makes progress, and grants unit steps by position
        alone. */
    method Step(n: nat)
      requires Safe() && Rotates()
      modifies reservation, `memory, `trace, `granted, `currentStep, `currentProc
      ensures Safe() && Rotates() && old(trace) <= trace && |memory| == |old(memory)|
      ensures granted == old(granted) + Grants(old(currentStep), old(currentProc), reservation.Length, n)
      ensures currentStep == (old(currentStep) + n) % INTERLEAVE
      ensures currentProc == Turn(old(currentStep), old(currentProc), reservation.Length, n)
    {
      hide ScSafe, Exclusive, Recorded, Rotates, Turn, Grants;
      var i := 0;
      StartOfStep(currentStep, currentProc, reservation.Length);
      while i < n
        invariant 0 <= i <= n && Safe() && Rotates() && old(trace) <= trace && |memory| == |old(memory)|
        invariant granted == old(granted) + Grants(old(currentStep), old(currentProc), reservation.Length, i)
        invariant currentStep == (old(currentStep) + i) % INTERLEAVE
        invariant currentProc == Turn(old(currentStep), old(currentProc), reservation.Length, i)
        decreases n - i
      {
        var steps := if n - i < INTERLEAVE - currentStep then n - i else INTERLEAVE - currentStep;
        GrantOne(old(currentStep), old(currentProc), reservation.Length, i, currentStep, currentProc, steps);
        Advance(steps);
        i := i + steps;
      }
    }
  }

  lemma StartOfStep(s: nat, c: nat, procs: nat)
    requires s < INTERLEAVE && c < procs
    ensures Turn(s, c, procs, 0) == c && Grants(s, c, procs, 0) == []
  {
  }

  /** One grant stays within a turn. */
  lemma GrantOne(s: nat, c: nat, procs: nat, i: nat, s': nat, c': nat, steps: nat)
    requires procs > 0 && s' == (s + i) % INTERLEAVE && c' == Turn(s, c, procs, i)
    requires 0 < steps <= INTERLEAVE - s'
    ensures Grants(s, c, procs, i + steps) == Grants(s, c, procs, i) + seq(steps, k => c')
    ensures (s + (i + steps)) % INTERLEAVE == if s' + steps == INTERLEAVE then 0 else s' + steps
    ensures Turn(s, c, procs, i + steps) == if s' + steps == INTERLEAVE then (c' + 1) % procs else c'
  {
    DivMod(c + (s + i) / INTERLEAVE, procs);
    assert c' < procs;
    hide Turn, Grants;
    GrantsSplit(s, c, procs, i, steps);
    TurnSplit(s, c, procs, i, steps);
    Carry(s, i, steps);
    TurnEnds(s', c', procs, steps);
    SameHart(s', c', procs, steps);
  }

  lemma TurnEnds(s: nat, c: nat, procs: nat, steps: nat)
    requires c < procs && s < INTERLEAVE && s + steps <= INTERLEAVE
    ensures Turn(s, c, procs, steps) == if s + steps == INTERLEAVE then (c + 1) % procs else c
    ensures (s + steps) / INTERLEAVE == if s + steps == INTERLEAVE then 1 else 0
    ensures (s + steps) % INTERLEAVE == if s + steps == INTERLEAVE then 0 else s + steps
  {
    SmallTurn(c, procs);
  }

  /** Within a turn every grant is the same hart's. */
  lemma SameHart(s: nat, c: nat, procs: nat, steps: nat)
    requires c < procs && s < INTERLEAVE && s + steps <= INTERLEAVE
    ensures Grants(s, c, procs, steps) == seq(steps, k => c)
  {
    var g := Grants(s, c, procs, steps);
    forall k | 0 <= k < steps ensures g[k] == c {
      assert g[k] == Turn(s, c, procs, k);
      TurnEnds(s, c, procs, k);
    }
  }

  lemma Wraps(c: nat, procs: nat)
    requires c < procs
    ensures (c + 1) % procs == if c + 1 == procs then 0 else c + 1
  {
    if c + 1 == procs { ModIs(c + 1, 1, 0, procs); } else { DivBounds(c + 1, procs); }
  }

  lemma SmallTurn(c: nat, procs: nat)
    requires c < procs
    ensures c % procs == c
  {
    DivBounds(c, procs);
  }
}
