/** Caches that pass their misses and writebacks on to shared miss handlers:
    access of riscv/cachesim.cc over an acyclic hierarchy. */
module CacheHierarchy {
  import opened Arith
  import opened Powers
  import opened CacheSim

  // ---- what the handlers owe their upstream caches

  function Misses(c: Cache): nat { c.n.readMisses + c.n.writeMisses }

  /** How often cache u lists h as a miss handler. */
  function Mult(handlers: seq<seq<nat>>, u: nat, h: nat): nat
    requires u < |handlers|
  {
    multiset(handlers[u])[h]
  }

  function UpstreamMisses(caches: seq<Cache>, handlers: seq<seq<nat>>, h: nat, k: nat): int
    requires k <= |caches| == |handlers|
  {
    if k == 0 then 0 else UpstreamMisses(caches, handlers, h, k - 1) + Mult(handlers, k - 1, h) * Misses(caches[k - 1])
  }

  function UpstreamWritebacks(caches: seq<Cache>, handlers: seq<seq<nat>>, h: nat, k: nat): int
    requires k <= |caches| == |handlers|
  {
    if k == 0 then 0
    else UpstreamWritebacks(caches, handlers, h, k - 1) + Mult(handlers, k - 1, h) * caches[k - 1].n.writebacks
  }

  /** Reads of h beyond the misses of the caches it serves. */
  function ReadBalance(caches: seq<Cache>, handlers: seq<seq<nat>>, h: nat): int
    requires h < |caches| == |handlers|
  {
    caches[h].n.readAccesses - UpstreamMisses(caches, handlers, h, |caches|)
  }

  /** Writes of h beyond the writebacks of the caches it serves. */
  function WriteBalance(caches: seq<Cache>, handlers: seq<seq<nat>>, h: nat): int
    requires h < |caches| == |handlers|
  {
    caches[h].n.writeAccesses - UpstreamWritebacks(caches, handlers, h, |caches|)
  }

  /** From before to after the balances grew by the given amounts. */
  ghost predicate Moved(handlers: seq<seq<nat>>, before: seq<Cache>, after: seq<Cache>,
                        r: multiset<nat>, rOwed: multiset<nat>, w: multiset<nat>, wOwed: multiset<nat>) {
    && |before| == |after| == |handlers|
    && forall h :: 0 <= h < |handlers| ==> MovedAt(handlers, before, after, h, r, rOwed, w, wOwed)
  }

  ghost predicate MovedAt(handlers: seq<seq<nat>>, before: seq<Cache>, after: seq<Cache>, h: nat,
                          r: multiset<nat>, rOwed: multiset<nat>, w: multiset<nat>, wOwed: multiset<nat>) {
    && h < |before| == |after| == |handlers|
    && ReadBalance(after, handlers, h) + rOwed[h] == ReadBalance(before, handlers, h) + r[h]
    && WriteBalance(after, handlers, h) + wOwed[h] == WriteBalance(before, handlers, h) + w[h]
  }

  lemma {:induction false} MissesSame(caches: seq<Cache>, caches': seq<Cache>, handlers: seq<seq<nat>>, h: nat, k: nat)
    requires k <= |caches| == |caches'| == |handlers|
    requires forall u :: 0 <= u < k ==>
               Misses(caches'[u]) == Misses(caches[u]) && caches'[u].n.writebacks == caches[u].n.writebacks
    ensures UpstreamMisses(caches', handlers, h, k) == UpstreamMisses(caches, handlers, h, k)
    ensures UpstreamWritebacks(caches', handlers, h, k) == UpstreamWritebacks(caches, handlers, h, k)
  {
    hide Misses, Mult;
    if k > 0 { MissesSame(caches, caches', handlers, h, k - 1); }
  }

  /** One more miss, or writeback, of cache c. */
  lemma {:induction false} OneChanged(caches: seq<Cache>, x: Cache, handlers: seq<seq<nat>>, h: nat, c: nat, k: nat)
    requires c < k <= |caches| == |handlers|
    requires 0 <= Misses(x) - Misses(caches[c]) <= 1 && 0 <= x.n.writebacks - caches[c].n.writebacks <= 1
    ensures UpstreamMisses(caches[c := x], handlers, h, k)
         == UpstreamMisses(caches, handlers, h, k) + if Misses(x) == Misses(caches[c]) then 0 else Mult(handlers, c, h)
    ensures UpstreamWritebacks(caches[c := x], handlers, h, k)
         == UpstreamWritebacks(caches, handlers, h, k)
            + if x.n.writebacks == caches[c].n.writebacks then 0 else Mult(handlers, c, h)
  {
    hide Misses, Mult;
    if c == k - 1 {
      MissesSame(caches, caches[c := x], handlers, h, k - 1);
      StepProduct(Mult(handlers, c, h), Misses(caches[c]), Misses(x));
      StepProduct(Mult(handlers, c, h), caches[c].n.writebacks, x.n.writebacks);
    } else {
      OneChanged(caches, x, handlers, h, c, k - 1);
    }
  }

  lemma StepProduct(m: nat, a: nat, b: nat)
    requires 0 <= b - a <= 1
    ensures m * b == m * a + if a == b then 0 else m
  {
    if b == a + 1 { AddMul(a, 1, m); }
  }

  /** A change to one cache alone. */
  lemma LocalChange(caches: seq<Cache>, x: Cache, handlers: seq<seq<nat>>, c: nat)
    requires c < |caches| == |handlers|
    requires 0 <= Misses(x) - Misses(caches[c]) <= 1 && 0 <= x.n.writebacks - caches[c].n.writebacks <= 1
    requires 0 <= x.n.readAccesses - caches[c].n.readAccesses <= 1
             && 0 <= x.n.writeAccesses - caches[c].n.writeAccesses <= 1
    ensures Moved(handlers, caches, caches[c := x],
                  if x.n.readAccesses == caches[c].n.readAccesses then multiset{} else multiset{c},
                  if Misses(x) == Misses(caches[c]) then multiset{} else multiset(handlers[c]),
                  if x.n.writeAccesses == caches[c].n.writeAccesses then multiset{} else multiset{c},
                  if x.n.writebacks == caches[c].n.writebacks then multiset{} else multiset(handlers[c]))
  {
    hide Misses, UpstreamMisses, UpstreamWritebacks;
    var d := caches[c := x];
    var r := if x.n.readAccesses == caches[c].n.readAccesses then multiset{} else multiset{c};
    var ro := if Misses(x) == Misses(caches[c]) then multiset{} else multiset(handlers[c]);
    var w := if x.n.writeAccesses == caches[c].n.writeAccesses then multiset{} else multiset{c};
    var wo := if x.n.writebacks == caches[c].n.writebacks then multiset{} else multiset(handlers[c]);
    forall h | 0 <= h < |handlers| ensures MovedAt(handlers, caches, d, h, r, ro, w, wo) {
      OneChanged(caches, x, handlers, h, c, |caches|);
    }
  }

  lemma MovedTwice(handlers: seq<seq<nat>>, a: seq<Cache>, b: seq<Cache>, d: seq<Cache>,
                   r: multiset<nat>, ro: multiset<nat>, w: multiset<nat>, wo: multiset<nat>,
                   r': multiset<nat>, ro': multiset<nat>, w': multiset<nat>, wo': multiset<nat>)
    requires Moved(handlers, a, b, r, ro, w, wo) && Moved(handlers, b, d, r', ro', w', wo')
    ensures Moved(handlers, a, d, r + r', ro + ro', w + w', wo + wo')
  {
    hide ReadBalance, WriteBalance;
    forall h | 0 <= h < |handlers| ensures MovedAt(handlers, a, d, h, r + r', ro + ro', w + w', wo + wo') {
      assert MovedAt(handlers, a, b, h, r, ro, w, wo);
      assert MovedAt(handlers, b, d, h, r', ro', w', wo');
    }
  }

  /** A step that moves nothing, before or after. */
  lemma MovedQuietly(handlers: seq<seq<nat>>, a: seq<Cache>, b: seq<Cache>, d: seq<Cache>,
                     r: multiset<nat>, ro: multiset<nat>, w: multiset<nat>, wo: multiset<nat>)
    requires || (&& Moved(handlers, a, b, r, ro, w, wo)
                 && Moved(handlers, b, d, multiset{}, multiset{}, multiset{}, multiset{}))
             || (&& Moved(handlers, a, b, multiset{}, multiset{}, multiset{}, multiset{})
                 && Moved(handlers, b, d, r, ro, w, wo))
    ensures Moved(handlers, a, d, r, ro, w, wo)
  {
    hide Moved;
    var z: multiset<nat> := multiset{};
    assert r + z == r && ro + z == ro && w + z == w && wo + z == wo;
    assert z + r == r && z + ro == ro && z + w == w && z + wo == wo;
    if Moved(handlers, a, b, r, ro, w, wo) && Moved(handlers, b, d, z, z, z, z) {
      MovedTwice(handlers, a, b, d, r, ro, w, wo, z, z, z, z);
    } else {
      MovedTwice(handlers, a, b, d, z, z, z, z, r, ro, w, wo);
    }
  }

  /** Reads owed, then delivered; or writes delivered, then owed. */
  lemma PaidReads(handlers: seq<seq<nat>>, a: seq<Cache>, b: seq<Cache>, d: seq<Cache>, m: multiset<nat>)
    requires Moved(handlers, a, b, multiset{}, m, multiset{}, multiset{})
    requires Moved(handlers, b, d, m, multiset{}, multiset{}, multiset{})
    ensures Moved(handlers, a, d, multiset{}, multiset{}, multiset{}, multiset{})
  {
    hide ReadBalance, WriteBalance;
    var z: multiset<nat> := multiset{};
    forall h | 0 <= h < |handlers| ensures MovedAt(handlers, a, d, h, z, z, z, z) {
      assert MovedAt(handlers, a, b, h, z, m, z, z) && MovedAt(handlers, b, d, h, m, z, z, z);
    }
  }

  lemma PaidWrites(handlers: seq<seq<nat>>, a: seq<Cache>, b: seq<Cache>, d: seq<Cache>, m: multiset<nat>)
    requires Moved(handlers, a, b, multiset{}, multiset{}, m, multiset{})
    requires Moved(handlers, b, d, multiset{}, multiset{}, multiset{}, m)
    ensures Moved(handlers, a, d, multiset{}, multiset{}, multiset{}, multiset{})
  {
    hide ReadBalance, WriteBalance;
    var z: multiset<nat> := multiset{};
    forall h | 0 <= h < |handlers| ensures MovedAt(handlers, a, d, h, z, z, z, z) {
      assert MovedAt(handlers, a, b, h, z, z, m, z) && MovedAt(handlers, b, d, h, z, z, z, m);
    }
  }

  /** One more handler called. */
  lemma MovedOneMore(handlers: seq<seq<nat>>, a: seq<Cache>, b: seq<Cache>, d: seq<Cache>, hs: seq<nat>, k: nat,
                     store: bool)
    requires k < |hs| && MovedBy(handlers, a, b, multiset(hs[..k]), store)
             && MovedBy(handlers, b, d, multiset{hs[k]}, store)
    ensures MovedBy(handlers, a, d, multiset(hs[..k + 1]), store)
  {
    hide Moved;
    assert hs[..k + 1] == hs[..k] + [hs[k]];
    var z: multiset<nat> := multiset{};
    var m, x := multiset(hs[..k]), multiset{hs[k]};
    if store {
      MovedTwice(handlers, a, b, d, z, z, m, z, z, z, x, z);
    } else {
      MovedTwice(handlers, a, b, d, m, z, z, z, x, z, z, z);
    }
    assert z + z == z && m + x == multiset(hs[..k + 1]);
  }

  /** Accesses of one kind to the given caches. */
  ghost predicate MovedBy(handlers: seq<seq<nat>>, a: seq<Cache>, b: seq<Cache>, targets: multiset<nat>, store: bool) {
    Moved(handlers, a, b,
          if store then multiset{} else targets, multiset{}, if store then targets else multiset{}, multiset{})
  }

  lemma NothingMoved(handlers: seq<seq<nat>>, a: seq<Cache>)
    requires |a| == |handlers|
    ensures Moved(handlers, a, a, multiset{}, multiset{}, multiset{}, multiset{})
  {
    hide ReadBalance, WriteBalance;
  }

  // ---- the hierarchy

  ghost predicate Acyclic(handlers: seq<seq<nat>>) {
    forall u, k :: 0 <= u < |handlers| && 0 <= k < |handlers[u]| ==> u < handlers[u][k] < |handlers|
  }

  function Accessed(c: Cache, bytes: nat, store: bool): Cache {
    if store then c.(n := c.n.(writeAccesses := c.n.writeAccesses + 1, bytesWritten := c.n.bytesWritten + bytes))
    else c.(n := c.n.(readAccesses := c.n.readAccesses + 1, bytesRead := c.n.bytesRead + bytes))
  }

  function Missed(c: Cache, store: bool): Cache {
    if store then c.(n := c.n.(writeMisses := c.n.writeMisses + 1))
    else c.(n := c.n.(readMisses := c.n.readMisses + 1))
  }

  function WroteBack(c: Cache): Cache {
    c.(n := c.n.(writebacks := c.n.writebacks + 1))
  }

  /** What an access does to its own cache when the line is there ... */
  ghost predicate HitEffect(c: Cache, c': Cache, line: u64, bytes: nat, store: bool) {
    && c' == Accessed(c, bytes, store).(tags := c'.tags)
    && line in Lines(c.tags) && Lines(c'.tags) == Lines(c.tags)
    && DirtyLines(c'.tags) == DirtyLines(c.tags) + if store then {line} else {}
  }

  predicate NeedsWriteback(victim: u64) { IsValid(victim) && IsDirty(victim) }

  /** ... and when it is not: it takes the victim's place, and a dirty victim is
      written back. */
  ghost predicate MissEffect(c: Cache, c': Cache, line: u64, bytes: nat, store: bool, victim: u64) {
    var x := Missed(Accessed(c, bytes, store), store);
    && c' == (if NeedsWriteback(victim) then WroteBack(x) else x).(tags := c'.tags, lfsr := c'.lfsr)
    && line !in Lines(c.tags) && Lines(c'.tags) == Lines(c.tags) - Gone(victim) + {line}
    && Chosen(c, line, victim, c'.lfsr)
    && DirtyLines(c'.tags) == DirtyLines(c.tags) - Gone(victim) + (if store then {line} else {})
    && (IsValid(victim) ==>
          LineOf(victim) in Lines(c.tags) && (IsDirty(victim) <==> LineOf(victim) in DirtyLines(c.tags)))
  }

  lemma CountingKeeps(c: Cache, bytes: nat, store: bool)
    requires Holds(c)
    ensures Holds(Accessed(c, bytes, store)) && 4 <= c.idxShift
    ensures Accessed(c, bytes, store).tags == c.tags && Accessed(c, bytes, store).idxShift == c.idxShift
  {
    hide Placed, KeyedByLine;
  }

  lemma CountedOnce(handlers: seq<seq<nat>>, caches: seq<Cache>, c: nat, bytes: nat, store: bool)
    requires c < |caches| == |handlers|
    ensures MovedBy(handlers, caches, caches[c := Accessed(caches[c], bytes, store)], multiset{c}, store)
  {
    hide Moved;
    LocalChange(caches, Accessed(caches[c], bytes, store), handlers, c);
  }

  /** MissEffect less the counting of the access itself. */
  ghost predicate MissedInto(c: Cache, c': Cache, line: u64, store: bool, victim: u64) {
    var x := Missed(c, store);
    && c' == (if NeedsWriteback(victim) then WroteBack(x) else x).(tags := c'.tags, lfsr := c'.lfsr)
    && line !in Lines(c.tags) && Lines(c'.tags) == Lines(c.tags) - Gone(victim) + {line}
    && Chosen(c, line, victim, c'.lfsr)
    && DirtyLines(c'.tags) == DirtyLines(c.tags) - Gone(victim) + (if store then {line} else {})
    && (IsValid(victim) ==>
          LineOf(victim) in Lines(c.tags) && (IsDirty(victim) <==> LineOf(victim) in DirtyLines(c.tags)))
  }

  lemma MissComposes(c: Cache, evicted: Cache, settled: Cache, c': Cache, line: u64, store: bool, victim: u64)
    requires evicted == Missed(c, store).(tags := evicted.tags, lfsr := evicted.lfsr)
    requires Replaced(c.tags, evicted.tags, victim, line) && Chosen(c, line, victim, evicted.lfsr)
    requires settled == if NeedsWriteback(victim) then WroteBack(evicted) else evicted
    requires c' == settled.(tags := c'.tags) && Lines(c'.tags) == Lines(settled.tags)
    requires DirtyLines(c'.tags) == DirtyLines(settled.tags) + if store then {line} else {}
    ensures MissedInto(c, c', line, store, victim)
  {
    hide Chosen, IsValid, IsDirty, Lines, DirtyLines;
  }

  lemma HasLine(tags: Tags, tags': Tags, victim: u64, line: u64)
    requires Replaced(tags, tags', victim, line)
    ensures line in Lines(tags')
  {
    hide Lines, DirtyLines;
  }

  lemma MissedKeeps(c: Cache, store: bool)
    requires Holds(c)
    ensures Holds(Missed(c, store)) && Missed(c, store).tags == c.tags
  {
    hide Placed, KeyedByLine;
  }

  lemma WroteBackKeeps(c: Cache)
    requires Holds(c)
    ensures Holds(WroteBack(c))
  {
    hide Placed, KeyedByLine;
  }

  /** addr & ~(linesz-1) */
  function LineBase(addr: u64, linesz: nat): u64
    requires linesz > 0
  {
    DivBounds(addr, linesz);
    addr - addr % linesz
  }

  lemma LineSize(c: Cache)
    requires Holds(c)
    ensures 0 < c.linesz < W64
  {
    hide Placed, KeyedByLine;
  }

  // ---- the history of one cache

  /** An access, with the cache as it was before and after. */
  datatype Visit = Visit(line: u64, bytes: nat, store: bool, before: Cache, after: Cache)

  ghost predicate Effect(v: Visit) {
    if v.line in Lines(v.before.tags) then HitEffect(v.before, v.after, v.line, v.bytes, v.store)
    else exists victim :: MissEffect(v.before, v.after, v.line, v.bytes, v.store, victim)
  }

  /** The visits lead from one state of the cache to the other. */
  ghost predicate Leads(start: Cache, log: seq<Visit>, c: Cache) {
    if log == [] then c == start
    else
      var v := log[|log| - 1];
      Leads(start, log[..|log| - 1], v.before) && Effect(v) && v.after == c
  }

  // ---- calls of the miss handlers

  datatype Request = Request(target: nat, addr: u64, bytes: nat, store: bool)

  /** An access, and those it made of the miss handlers. */
  datatype Call = Call(req: Request, visit: Visit, down: seq<Call>)

  /** Tag caches use smaller units. */
  function UnitAddr(x: Cache, addr: u64): u64 { if x.tagMode then addr / 8 else addr }

  function UnitBytes(x: Cache, bytes: nat): nat { if x.tagMode then (bytes + 7) / 8 else bytes }

  /** (victim & ~(VALID | DIRTY)) << idx_shift */
  function VictimAddr(x: Cache, victim: u64): u64 { LineOf(victim) * Pow2(x.idxShift) % W64 }

  /** One request of each handler, in the order they were added. */
  function Asked(hs: seq<nat>, addr: u64, bytes: nat, store: bool): seq<Request> {
    seq(|hs|, k requires 0 <= k < |hs| => Request(hs[k], addr, bytes, store))
  }

  function Requests(calls: seq<Call>): (r: seq<Request>)
    ensures |r| == |calls|
  {
    seq(|calls|, k requires 0 <= k < |calls| => calls[k].req)
  }

  lemma RequestsConcat(a: seq<Call>, b: seq<Call>)
    ensures Requests(a + b) == Requests(a) + Requests(b)
  {
  }

  /** A miss writes a dirty victim back to every handler, then fetches the line
      from every handler. */
  ghost predicate Relayed(hs: seq<nat>, x: Cache, addr: u64, victim: u64, down: seq<Call>) {
    && 0 < x.linesz
    && Requests(down) == (if NeedsWriteback(victim) then Asked(hs, VictimAddr(x, victim), x.linesz, true) else [])
                       + Asked(hs, LineBase(addr, x.linesz), x.linesz, false)
  }

  /** The visit is what the request asks for, and the requests passed down are
      what the visit asks for, all the way down. */
  ghost predicate Answered(handlers: seq<seq<nat>>, call: Call)
    decreases call
  {
    var v, x, addr := call.visit, call.visit.before, UnitAddr(call.visit.before, call.req.addr);
    && call.req.target < |handlers| && 4 <= x.idxShift
    && v.line == LineAt(x, addr) && v.bytes == UnitBytes(x, call.req.bytes) && v.store == call.req.store
    && Outcome(handlers[call.req.target], v, addr, call.down)
    && forall k :: 0 <= k < |call.down| ==> Answered(handlers, call.down[k])
  }

  ghost predicate Outcome(hs: seq<nat>, v: Visit, addr: u64, down: seq<Call>) {
    if v.line in Lines(v.before.tags) then
      HitEffect(v.before, v.after, v.line, v.bytes, v.store) && down == []
    else
      exists victim ::
        && MissEffect(v.before, v.after, v.line, v.bytes, v.store, victim)
        && Relayed(hs, v.before, addr, victim, down)
  }

  lemma OutcomeEffect(hs: seq<nat>, v: Visit, addr: u64, down: seq<Call>)
    requires Outcome(hs, v, addr, down)
    ensures Effect(v)
  {
    hide HitEffect, MissEffect, Relayed, Lines;
  }

  /** The visits that calls made to cache h, in order. */
  function VisitsTo(calls: seq<Call>, h: nat): seq<Visit>
    decreases calls
  {
    if calls == [] then []
    else
      var n := |calls| - 1;
      VisitsTo(calls[..n], h) + VisitsTo(calls[n].down, h) + if calls[n].req.target == h then [calls[n].visit] else []
  }

  lemma VisitsNext(calls: seq<Call>, call: Call, h: nat)
    ensures VisitsTo(calls + [call], h)
         == VisitsTo(calls, h) + (VisitsTo(call.down, h) + if call.req.target == h then [call.visit] else [])
  {
    assert (calls + [call])[..|calls|] == calls;
  }

  lemma {:induction false} VisitsConcat(a: seq<Call>, b: seq<Call>, h: nat)
    ensures VisitsTo(a + b, h) == VisitsTo(a, h) + VisitsTo(b, h)
    decreases |b|
  {
    if b == [] {
      assert a + b == a;
    } else {
      var n := |b| - 1;
      SplitLast(a, b);
      VisitsConcat(a, b[..n], h);
      VisitsNext(b[..n], b[n], h);
      VisitsNext(a + b[..n], b[n], h);
      var last := VisitsTo(b[n].down, h) + if b[n].req.target == h then [b[n].visit] else [];
      hide *;
      GroupVisits(VisitsTo(a, h), VisitsTo(b[..n], h), last);
    }
  }

  lemma SplitLast(a: seq<Call>, b: seq<Call>)
    requires b != []
    ensures var n := |b| - 1; a + b == a + b[..n] + [b[n]] && b == b[..n] + [b[n]]
  {
  }

  lemma GroupVisits(a: seq<Visit>, b: seq<Visit>, c: seq<Visit>)
    ensures a + b + c == a + (b + c)
  {
  }

  lemma VisitsOfOne(call: Call, h: nat)
    ensures VisitsTo([call], h) == VisitsTo(call.down, h) + if call.req.target == h then [call.visit] else []
  {
    assert [call][..0] == [];
  }

  lemma NoVisits()
    ensures forall h :: VisitsTo([], h) == []
  {
  }

  /** Counting does not move a cache's lines. */
  lemma SameLines(x: Cache, bytes: nat, store: bool, victim: u64)
    ensures Accessed(x, bytes, store).linesz == Missed(x, store).linesz == WroteBack(x).linesz == x.linesz
    ensures VictimAddr(Accessed(x, bytes, store), victim) == VictimAddr(Missed(x, store), victim)
         == VictimAddr(WroteBack(x), victim) == VictimAddr(x, victim)
  {
  }

  lemma SameVictim(x: Cache, x': Cache, victim: u64)
    requires x'.idxShift == x.idxShift
    ensures VictimAddr(x', victim) == VictimAddr(x, victim)
  {
  }

  lemma SameRelay(hs: seq<nat>, x: Cache, bytes: nat, store: bool, addr: u64, victim: u64, down: seq<Call>)
    ensures Relayed(hs, Accessed(x, bytes, store), addr, victim, down) <==> Relayed(hs, x, addr, victim, down)
  {
    SameLines(x, bytes, store, victim);
    hide Accessed, VictimAddr, NeedsWriteback, Requests, Asked, LineBase;
  }

  lemma HitOutcome(hs: seq<nat>, v: Visit, addr: u64)
    requires v.line in Lines(v.before.tags)
    requires v.after == Accessed(v.before, v.bytes, v.store).(tags := v.after.tags)
    requires Lines(v.after.tags) == Lines(v.before.tags)
    requires DirtyLines(v.after.tags) == DirtyLines(v.before.tags) + if v.store then {v.line} else {}
    ensures Outcome(hs, v, addr, [])
  {
    hide Accessed, Lines, DirtyLines;
  }

  lemma MissOutcome(hs: seq<nat>, v: Visit, addr: u64, down: seq<Call>, victim: u64)
    requires v.line !in Lines(v.before.tags)
    requires MissedInto(Accessed(v.before, v.bytes, v.store), v.after, v.line, v.store, victim)
    requires Relayed(hs, Accessed(v.before, v.bytes, v.store), addr, victim, down)
    ensures Outcome(hs, v, addr, down)
  {
    SameRelay(hs, v.before, v.bytes, v.store, addr, victim, down);
    hide Lines, DirtyLines, Missed, WroteBack, NeedsWriteback, Relayed, Chosen;
    SameChoice(v.before, v.bytes, v.store, v.line, victim, v.after.lfsr);
    assert MissEffect(v.before, v.after, v.line, v.bytes, v.store, victim);
  }

  lemma SameChoice(c: Cache, bytes: nat, store: bool, line: u64, victim: u64, lfsr: u32)
    ensures Chosen(Accessed(c, bytes, store), line, victim, lfsr) <==> Chosen(c, line, victim, lfsr)
    ensures Chosen(Missed(c, store), line, victim, lfsr) <==> Chosen(c, line, victim, lfsr)
  {
  }

  lemma LeadsOn(start: Cache, log: seq<Visit>, v: Visit)
    requires Leads(start, log, v.before) && Effect(v)
    ensures Leads(start, log + [v], v.after)
  {
    assert (log + [v])[..|log|] == log;
  }

  function OneIf(b: bool): nat { if b then 1 else 0 }

  /** What should have been counted over a history. */
  function Reads(log: seq<Visit>): nat {
    if log == [] then 0 else Reads(log[..|log| - 1]) + OneIf(!log[|log| - 1].store)
  }

  function Writes(log: seq<Visit>): nat {
    if log == [] then 0 else Writes(log[..|log| - 1]) + OneIf(log[|log| - 1].store)
  }

  ghost function LinesMissed(log: seq<Visit>): nat {
    if log == [] then 0
    else
      var v := log[|log| - 1];
      LinesMissed(log[..|log| - 1]) + OneIf(v.line !in Lines(v.before.tags))
  }

  /** The stores that found their line not dirty. */
  ghost function DirtyingStores(log: seq<Visit>): nat {
    if log == [] then 0
    else
      var v := log[|log| - 1];
      DirtyingStores(log[..|log| - 1]) + OneIf(v.store && v.line !in DirtyLines(v.before.tags))
  }

  /** The counters are the history's counts, and every dirtying store has left
      a dirty line or a writeback. */
  ghost predicate Conserved(log: seq<Visit>, c: Cache) {
    && c.n.readAccesses == Reads(log) && c.n.writeAccesses == Writes(log) && Misses(c) == LinesMissed(log)
    && c.n.writebacks + |DirtyLines(c.tags)| == DirtyingStores(log)
  }

  ghost predicate Clean(c: Cache) { Holds(c) && DirtyLines(c.tags) == {} && c.n == ZERO }

  lemma DirtyIsHeld(tags: Tags)
    ensures DirtyLines(tags) <= Lines(tags)
  {
    hide IsValid, IsDirty, LineOf;
  }

  lemma VisitCounts(v: Visit)
    requires Effect(v)
    ensures v.after.n.readAccesses == v.before.n.readAccesses + OneIf(!v.store)
    ensures v.after.n.writeAccesses == v.before.n.writeAccesses + OneIf(v.store)
    ensures Misses(v.after) == Misses(v.before) + OneIf(v.line !in Lines(v.before.tags))
  {
    hide Lines, DirtyLines, IsValid, IsDirty;
  }

  lemma VisitConserves(v: Visit)
    requires Effect(v)
    ensures v.after.n.writebacks + |DirtyLines(v.after.tags)|
         == v.before.n.writebacks + |DirtyLines(v.before.tags)|
            + OneIf(v.store && v.line !in DirtyLines(v.before.tags))
  {
    hide Lines, DirtyLines, IsValid, IsDirty, LineOf;
    DirtyIsHeld(v.before.tags);
    var dirty := DirtyLines(v.before.tags);
    if v.line in Lines(v.before.tags) {
      if v.line in dirty { assert dirty + {v.line} == dirty; }
    } else {
      var victim :| MissEffect(v.before, v.after, v.line, v.bytes, v.store, victim);
      MissConserves(v, victim);
    }
  }

  lemma MissConserves(v: Visit, victim: u64)
    requires MissEffect(v.before, v.after, v.line, v.bytes, v.store, victim)
    ensures v.after.n.writebacks + |DirtyLines(v.after.tags)|
         == v.before.n.writebacks + |DirtyLines(v.before.tags)| + OneIf(v.store)
  {
    WritebackCounts(v, victim);
    hide Accessed, Missed, WroteBack, Chosen, Lines, DirtyLines, IsValid, IsDirty, LineOf;
    DirtyIsHeld(v.before.tags);
    DirtySetMoves(DirtyLines(v.before.tags), victim, v.line, v.store);
  }

  lemma WritebackCounts(v: Visit, victim: u64)
    requires MissEffect(v.before, v.after, v.line, v.bytes, v.store, victim)
    ensures v.after.n.writebacks == v.before.n.writebacks + OneIf(NeedsWriteback(victim))
  {
    hide Chosen, Lines, DirtyLines, NeedsWriteback, LineOf;
  }

  lemma DirtySetMoves(dirty: set<u64>, victim: u64, line: u64, store: bool)
    requires line !in dirty && (IsValid(victim) ==> (IsDirty(victim) <==> LineOf(victim) in dirty))
    ensures |dirty - Gone(victim) + (if store then {line} else {})| + OneIf(NeedsWriteback(victim))
         == |dirty| + OneIf(store)
  {
    hide IsValid, IsDirty, LineOf;
    var left := dirty - Gone(victim);
    if NeedsWriteback(victim) {
      assert dirty == left + {LineOf(victim)};
    } else {
      assert left == dirty;
    }
    assert left + {} == left;
  }

  /** Conservation, over every history. */
  lemma {:induction false} Conservation(start: Cache, log: seq<Visit>, c: Cache)
    requires Leads(start, log, c) && Clean(start)
    ensures Conserved(log, c)
  {
    hide Lines, DirtyLines, Holds, Effect;
    if log != [] {
      var v := log[|log| - 1];
      Conservation(start, log[..|log| - 1], v.before);
      VisitCounts(v);
      VisitConserves(v);
    }
  }

  // ---- traffic between caches

  lemma CountMoves(handlers: seq<seq<nat>>, a: seq<Cache>, b: seq<Cache>, d: seq<Cache>, c: nat, store: bool)
    requires MovedBy(handlers, a, b, multiset{c}, store)
    requires Moved(handlers, b, d, multiset{}, multiset{}, multiset{}, multiset{})
    ensures MovedBy(handlers, a, d, multiset{c}, store)
  {
    hide Moved;
    MovedQuietly(handlers, a, b, d, if store then multiset{} else multiset{c}, multiset{},
                 if store then multiset{c} else multiset{}, multiset{});
  }

  predicate AccountedAt(caches: seq<Cache>, handlers: seq<seq<nat>>, h: nat, reads_: nat, writes: nat) {
    && h < |caches| == |handlers|
    && caches[h].n.readAccesses == reads_ + UpstreamMisses(caches, handlers, h, |caches|)
    && caches[h].n.writeAccesses == writes + UpstreamWritebacks(caches, handlers, h, |caches|)
  }

  lemma {:induction false} NoTraffic(caches: seq<Cache>, handlers: seq<seq<nat>>, h: nat, k: nat)
    requires k <= |caches| == |handlers| && forall c :: c in caches ==> c.n == ZERO
    ensures UpstreamMisses(caches, handlers, h, k) == 0 && UpstreamWritebacks(caches, handlers, h, k) == 0
  {
    if k > 0 { NoTraffic(caches, handlers, h, k - 1); }
  }

  lemma OneDirect(handlers: seq<seq<nat>>, a: seq<Cache>, b: seq<Cache>, c: nat, store: bool, h: nat, r: nat, w: nat)
    requires MovedBy(handlers, a, b, multiset{c}, store) && AccountedAt(a, handlers, h, r, w)
    ensures AccountedAt(b, handlers, h, if !store && h == c then r + 1 else r, if store && h == c then w + 1 else w)
  {
    hide UpstreamMisses, UpstreamWritebacks;
    var z: multiset<nat> := multiset{};
    assert MovedAt(handlers, a, b, h, if store then z else multiset{c}, z, if store then multiset{c} else z, z);
  }

  /** All the caches of a simulation; a miss handler is an index. */
  class Hierarchy {
    var caches: seq<Cache>
    const handlers: seq<seq<nat>>
    /** the caches at first, and what each has been through */
    ghost const start: seq<Cache>
    ghost var log: seq<seq<Visit>>
    /** the accesses from outside, with all they led to */
    ghost var calls: seq<Call>
    /** accesses from outside */
    ghost var directReads: seq<nat>
    ghost var directWrites: seq<nat>

    /** Caches from c on are well formed and between accesses. */
    ghost predicate SoundFrom(c: nat)
      reads this
    {
      && |caches| == |handlers| == |log| == |start| && Acyclic(handlers)
      && forall i :: c <= i < |caches| ==> Holds(caches[i]) && Leads(start[i], log[i], caches[i])
    }

    /** All reads and writes are accounted for: those made directly, and the
        misses and writebacks of the caches upstream; and the histories hold the
        accesses from outside with all that they led to, and nothing else. */
    ghost predicate Accounted()
      reads this
    {
      && SoundFrom(0) && |directReads| == |directWrites| == |caches|
      && (forall c :: 0 <= c < |start| ==> Clean(start[c]))
      && (forall k :: 0 <= k < |calls| ==> Answered(handlers, calls[k]))
      && (forall h :: 0 <= h < |log| ==> log[h] == VisitsTo(calls, h))
      && forall h :: 0 <= h < |caches| ==> AccountedAt(caches, handlers, h, directReads[h], directWrites[h])
    }

    constructor (caches: seq<Cache>, handlers: seq<seq<nat>>)
      requires |caches| == |handlers| && Acyclic(handlers) && forall c :: c in caches ==> Clean(c)
      ensures Accounted() && this.caches == caches && this.handlers == handlers
      ensures log == seq(|caches|, i => []) && calls == []
      ensures directReads == seq(|caches|, i => 0) && directWrites == seq(|caches|, i => 0)
    {
      this.caches, this.handlers, start := caches, handlers, caches;
      calls := [];
      log, directReads, directWrites := seq(|caches|, i => []), seq(|caches|, i => 0), seq(|caches|, i => 0);
      new;
      hide Holds, UpstreamMisses, UpstreamWritebacks, DirtyLines;
      forall c | 0 <= c < |caches| ensures Clean(caches[c]) && Leads(caches[c], [], caches[c]) {
        assert caches[c] in caches;
      }
      forall h | 0 <= h < |caches| ensures AccountedAt(caches, handlers, h, 0, 0) {
        NoTraffic(caches, handlers, h, |caches|);
      }
    }

    /** An access made from outside, by a memory tracer. */
    method Trace(c: nat, addr: u64, bytes: nat, store: bool) returns (ghost call: Call)
      requires Accounted() && c < |caches|
      modifies this
      ensures Accounted() && forall i :: 0 <= i < |caches| ==> Conserved(log[i], caches[i])
      ensures |log| == |old(log)| && forall i :: 0 <= i < |log| ==> old(log)[i] <= log[i]
      ensures call.req == Request(c, addr, bytes, store) && calls == old(calls) + [call]
      ensures Visited(c, call.visit)
      ensures directReads == (if store then old(directReads) else old(directReads)[c := old(directReads)[c] + 1])
      ensures directWrites == (if store then old(directWrites)[c := old(directWrites)[c] + 1] else old(directWrites))
    {
      hide Leads, Holds, Clean, Moved, ReadBalance, WriteBalance, Lines, DirtyLines, AccountedAt, Conserved;
      hide Answered;
      call := Access(c, addr, bytes, store);
      calls := calls + [call];
      forall h | 0 <= h < |log| ensures log[h] == VisitsTo(calls, h) { VisitsConcat(old(calls), [call], h); }
      ghost var r, w := directReads, directWrites;
      if store {
        directWrites := directWrites[c := directWrites[c] + 1];
      } else {
        directReads := directReads[c := directReads[c] + 1];
      }
      forall h | 0 <= h < |caches| ensures AccountedAt(caches, handlers, h, directReads[h], directWrites[h]) {
        OneDirect(handlers, old(caches), caches, c, store, h, r[h], w[h]);
      }
      forall i | 0 <= i < |caches| ensures Conserved(log[i], caches[i]) {
        Conservation(start[i], log[i], caches[i]);
      }
    }

    /** Caches before c are as they were, and no history is rewritten. */
    twostate predicate OnlyFrom(c: nat)
      reads this
    {
      && |caches| == |old(caches)| && |log| == |old(log)|
      && (forall i :: 0 <= i < |log| ==> old(log)[i] <= log[i])
      && forall i :: 0 <= i < c && i < |caches| && i < |log| ==> caches[i] == old(caches)[i] && log[i] == old(log)[i]
    }

    /** Cache c's history is one access longer. */
    twostate predicate Visited(c: nat, v: Visit)
      reads this
    {
      && c < |caches| == |log| == |old(caches)| == |old(log)|
      && v.before == old(caches)[c] && v.after == caches[c] && log[c] == old(log)[c] + [v]
    }

    /** The histories have grown by the visits of these calls. */
    twostate predicate Logged(calls: seq<Call>)
      reads this
    {
      |log| == |old(log)| && forall h :: 0 <= h < |log| ==> log[h] == old(log)[h] + VisitsTo(calls, h)
    }

    method Access(c: nat, addr0: u64, bytes0: nat, store: bool) returns (ghost call: Call)
      requires SoundFrom(c) && c < |caches|
      modifies `caches, `log
      ensures SoundFrom(c) && OnlyFrom(c) && Visited(c, call.visit)
      ensures call.req == Request(c, addr0, bytes0, store) && Answered(handlers, call) && Logged([call])
      ensures MovedBy(handlers, old(caches), caches, multiset{c}, store)
      decreases |caches| - c, 5
    {
      hide Leads, Moved, LineAt, Lines, DirtyLines, Holds, Effect, Outcome, VisitsTo;
      var addr: u64, bytes := addr0, bytes0;
      if caches[c].tagMode {
        bytes := (bytes + 7) / 8;
        addr := addr / 8;
      }
      ghost var v, down := Serve(c, addr, bytes, store);
      call := Call(Request(c, addr0, bytes0, store), v, down);
      OutcomeEffect(handlers[c], v, addr, down);
      LeadsOn(start[c], log[c], v);
      forall h ensures VisitsTo([call], h) == VisitsTo(down, h) + if h == c then [v] else [] { VisitsOfOne(call, h); }
      log := log[c := log[c] + [v]];
    }

    /** The access proper, in the cache's own units. */
    method Serve(c: nat, addr: u64, bytes: nat, store: bool) returns (ghost v: Visit, ghost down: seq<Call>)
      requires SoundFrom(c) && c < |caches|
      modifies `caches, `log
      ensures SoundFrom(c + 1) && OnlyFrom(c) && Holds(caches[c]) && log[c] == old(log)[c]
      ensures 4 <= old(caches)[c].idxShift
      ensures v == Visit(LineAt(old(caches)[c], addr), bytes, store, old(caches)[c], caches[c])
      ensures Outcome(handlers[c], v, addr, down) && Logged(down)
      ensures forall k :: 0 <= k < |down| ==> Answered(handlers, down[k])
      ensures MovedBy(handlers, old(caches), caches, multiset{c}, store)
      decreases |caches| - c, 4
    {
      hide Leads, Moved, LineAt, Lines, DirtyLines, Holds, Accessed, MissedInto, Outcome, Relayed, Answered, VisitsTo;
      CountingKeeps(caches[c], bytes, store);
      var line := LineAt(caches[c], addr);
      CountedOnce(handlers, caches, c, bytes, store);
      caches := caches[c := Accessed(caches[c], bytes, store)];
      ghost var counted := caches;
      down := [];
      var hit := Lookup(caches[c], line);
      if hit {
        NothingMoved(handlers, caches);
        if store { Soil(c, line); }
        v := Visit(line, bytes, store, old(caches)[c], caches[c]);
        HitOutcome(handlers[c], v, addr);
        NoVisits();
      } else {
        ghost var victim;
        victim, down := Miss(c, addr, line, store);
        v := Visit(line, bytes, store, old(caches)[c], caches[c]);
        MissOutcome(handlers[c], v, addr, down, victim);
      }
      CountMoves(handlers, old(caches), counted, caches, c, store);
    }

    /** What follows a lookup that found nothing. */
    method Miss(c: nat, addr: u64, line: u64, store: bool) returns (ghost victim: u64, ghost down: seq<Call>)
      requires SoundFrom(c + 1) && c < |caches| && Holds(caches[c])
      requires line < DIRTY && line !in Lines(caches[c].tags)
      modifies `caches, `log
      ensures SoundFrom(c + 1) && OnlyFrom(c) && Holds(caches[c]) && log[c] == old(log)[c]
      ensures Moved(handlers, old(caches), caches, multiset{}, multiset{}, multiset{}, multiset{})
      ensures MissedInto(old(caches)[c], caches[c], line, store, victim)
      ensures Relayed(handlers[c], old(caches)[c], addr, victim, down) && Logged(down)
      ensures forall k :: 0 <= k < |down| ==> Answered(handlers, down[k])
      decreases |caches| - c, 3
    {
      hide Leads, Moved, LineAt, Lines, DirtyLines, Holds, NeedsWriteback, Missed, WroteBack, Replaced, MissedInto;
      hide LineBase, VictimAddr, Asked, Requests, Answered, VisitsTo, Chosen;
      ghost var evicted;
      ghost var written;
      evicted, victim, written := MakeRoom(c, line, store);
      HasLine(old(caches)[c].tags, evicted.tags, victim, line);
      ghost var settled := caches;
      LineSize(caches[c]);
      ghost var fetched := CallHandlers(c, LineBase(addr, caches[c].linesz), caches[c].linesz, false);
      PaidReads(handlers, old(caches), settled, caches, multiset(handlers[c]));
      ghost var filled := caches;
      if store { Soil(c, line); } else { NothingMoved(handlers, caches); }
      MovedQuietly(handlers, old(caches), filled, caches, multiset{}, multiset{}, multiset{}, multiset{});
      MissComposes(old(caches)[c], evicted, settled[c], caches[c], line, store, victim);
      down := written + fetched;
      RequestsConcat(written, fetched);
      forall h ensures VisitsTo(down, h) == VisitsTo(written, h) + VisitsTo(fetched, h) {
        VisitsConcat(written, fetched, h);
      }
    }

    /** Eviction, and the writeback of a dirty victim. */
    method MakeRoom(c: nat, line: u64, store: bool)
      returns (ghost evicted: Cache, ghost victim: u64, ghost written: seq<Call>)
      requires SoundFrom(c + 1) && c < |caches| && Holds(caches[c])
      requires line < DIRTY && line !in Lines(caches[c].tags)
      modifies `caches, `log
      ensures SoundFrom(c + 1) && OnlyFrom(c) && Holds(caches[c]) && log[c] == old(log)[c]
      ensures Moved(handlers, old(caches), caches, multiset{}, multiset(handlers[c]), multiset{}, multiset{})
      ensures evicted == Missed(old(caches)[c], store).(tags := evicted.tags, lfsr := evicted.lfsr)
      ensures Replaced(old(caches)[c].tags, evicted.tags, victim, line)
      ensures Chosen(old(caches)[c], line, victim, evicted.lfsr)
      ensures Requests(written)
           == if NeedsWriteback(victim) then
                Asked(handlers[c], VictimAddr(old(caches)[c], victim), old(caches)[c].linesz, true)
              else []
      ensures Logged(written) && forall k :: 0 <= k < |written| ==> Answered(handlers, written[k])
      ensures caches[c] == (if NeedsWriteback(victim) then WroteBack(evicted) else evicted)
      ensures caches[c].tags == evicted.tags && caches[c].linesz == old(caches)[c].linesz
      decreases |caches| - c, 2
    {
      hide Leads, Moved, Lines, DirtyLines, Holds, NeedsWriteback, Missed, Replaced, Chosen, Asked, Answered;
      hide VictimAddr;
      var v := Evict(c, line, store);
      victim := v;
      evicted := caches[c];
      SameLines(evicted, 0, store, v);
      SameLines(old(caches)[c], 0, store, v);
      SameVictim(Missed(old(caches)[c], store), evicted, v);
      ghost var before := caches;
      if NeedsWriteback(v) {
        written := WriteBack(c, v);
      } else {
        written := [];
        NothingMoved(handlers, caches);
        NoVisits();
      }
      MovedQuietly(handlers, old(caches), before, caches, multiset{}, multiset(handlers[c]), multiset{}, multiset{});
    }

    /** Count the miss and put the line in the victim's place. */
    method Evict(c: nat, line: u64, store: bool) returns (victim: u64)
      requires SoundFrom(c + 1) && c < |caches| && Holds(caches[c])
      requires line < DIRTY && line !in Lines(caches[c].tags)
      modifies `caches
      ensures SoundFrom(c + 1) && OnlyFrom(c) && Holds(caches[c])
      ensures forall i :: c < i < |caches| ==> caches[i] == old(caches)[i]
      ensures Moved(handlers, old(caches), caches, multiset{}, multiset(handlers[c]), multiset{}, multiset{})
      ensures caches[c] == Missed(old(caches)[c], store).(tags := caches[c].tags, lfsr := caches[c].lfsr)
      ensures Replaced(old(caches)[c].tags, caches[c].tags, victim, line)
      ensures Chosen(old(caches)[c], line, victim, caches[c].lfsr)
    {
      hide Leads, Moved, Lines, DirtyLines, Holds, Replaced, Chosen;
      forall v, r ensures Chosen(Missed(caches[c], store), line, v, r) <==> Chosen(caches[c], line, v, r) {
        SameChoice(caches[c], 0, store, line, v, r);
      }
      MissedKeeps(caches[c], store);
      var x;
      x, victim := Victimize(Missed(caches[c], store), line);
      LocalChange(caches, x, handlers, c);
      caches := caches[c := x];
    }

    method WriteBack(c: nat, victim: u64) returns (ghost written: seq<Call>)
      requires SoundFrom(c + 1) && c < |caches| && Holds(caches[c]) && NeedsWriteback(victim)
      modifies `caches, `log
      ensures SoundFrom(c + 1) && OnlyFrom(c) && Holds(caches[c]) && log[c] == old(log)[c]
      ensures Moved(handlers, old(caches), caches, multiset{}, multiset{}, multiset{}, multiset{})
      ensures caches[c] == WroteBack(old(caches)[c])
      ensures Requests(written) == Asked(handlers[c], VictimAddr(old(caches)[c], victim), old(caches)[c].linesz, true)
      ensures Logged(written) && forall k :: 0 <= k < |written| ==> Answered(handlers, written[k])
      decreases |caches| - c, 1
    {
      hide Leads, Moved, Lines, DirtyLines, Holds, NeedsWriteback, VictimAddr, Asked, Answered, VisitsTo;
      LineSize(caches[c]);
      var dirtyAddr := VictimAddr(caches[c], victim);
      written := CallHandlers(c, dirtyAddr, caches[c].linesz, true);
      SameLines(caches[c], 0, true, victim);
      ghost var delivered := caches;
      LocalChange(caches, WroteBack(caches[c]), handlers, c);
      WroteBackKeeps(caches[c]);
      caches := caches[c := WroteBack(caches[c])];
      PaidWrites(handlers, old(caches), delivered, caches, multiset(handlers[c]));
    }

    /** for (i...) miss_handlers[i]->access(addr, bytes, store) */
    method CallHandlers(c: nat, addr: u64, bytes: nat, store: bool) returns (ghost made: seq<Call>)
      requires SoundFrom(c + 1) && c < |caches|
      modifies `caches, `log
      ensures SoundFrom(c + 1) && OnlyFrom(c + 1)
      ensures MovedBy(handlers, old(caches), caches, multiset(handlers[c]), store)
      ensures Requests(made) == Asked(handlers[c], addr, bytes, store) && Logged(made)
      ensures forall k :: 0 <= k < |made| ==> Answered(handlers, made[k])
      decreases |caches| - c, 0
    {
      hide Leads, Holds, Moved, Answered, VisitsTo;
      var hs := handlers[c];
      NothingMoved(handlers, caches);
      NoVisits();
      assert hs[..0] == [];
      made := [];
      for k := 0 to |hs|
        invariant SoundFrom(c + 1) && OnlyFrom(c + 1)
        invariant MovedBy(handlers, old(caches), caches, multiset(hs[..k]), store)
        invariant |made| == k && Logged(made)
        invariant forall i :: 0 <= i < k ==>
                    made[i].req == Request(hs[i], addr, bytes, store) && Answered(handlers, made[i])
      {
        ghost var before := caches;
        ghost var call := Access(hs[k], addr, bytes, store);
        forall h ensures VisitsTo(made + [call], h) == VisitsTo(made, h) + VisitsTo([call], h) {
          VisitsConcat(made, [call], h);
        }
        made := made + [call];
        MovedOneMore(handlers, old(caches), before, caches, hs, k, store);
      }
      assert hs[..|hs|] == hs;
    }

    /** A dirty bit set. */
    method Soil(c: nat, line: u64)
      requires SoundFrom(c + 1) && c < |caches| && Holds(caches[c]) && line < DIRTY && line in Lines(caches[c].tags)
      modifies `caches
      ensures SoundFrom(c + 1) && OnlyFrom(c) && Holds(caches[c])
      ensures Moved(handlers, old(caches), caches, multiset{}, multiset{}, multiset{}, multiset{})
      ensures caches[c] == old(caches)[c].(tags := caches[c].tags)
              && Lines(caches[c].tags) == Lines(old(caches)[c].tags)
      ensures DirtyLines(caches[c].tags) == DirtyLines(old(caches)[c].tags) + {line}
    {
      hide Leads, Moved, Lines, DirtyLines, Holds;
      var tags := MarkDirty(caches[c], line);
      LocalChange(caches, caches[c].(tags := tags), handlers, c);
      caches := caches[c := caches[c].(tags := tags)];
    }
  }
}
