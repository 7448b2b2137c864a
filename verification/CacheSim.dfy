/** The cache hierarchy simulator: set-associative and fully associative caches
    that pass misses and writebacks to shared miss handlers
    (riscv/cachesim.cc, riscv/cachesim.h). */
module CacheSim {
  import opened Wrappers
  import opened Arith
  import opened Powers
  import opened Bits

  const VALID: nat := 0x8000_0000_0000_0000
  const DIRTY: nat := 0x4000_0000_0000_0000

  // ---- tag words

  predicate IsValid(t: u64) { t >= VALID }

  predicate IsDirty(t: u64) { t / DIRTY % 2 == 1 }

  function LineOf(t: u64): (l: u64)
    ensures l < DIRTY
  {
    t % DIRTY
  }

  /** line | VALID */
  function CleanTag(line: u64): u64
    requires line < DIRTY
  {
    VALID + line
  }

  /** t | DIRTY and t & ~DIRTY */
  function WithDirty(t: u64): u64 { if IsDirty(t) then t else t + DIRTY }

  function WithoutDirty(t: u64): u64 { if IsDirty(t) then t - DIRTY else t }

  lemma TagWord(t: u64, line: u64)
    requires line < DIRTY
    ensures WithoutDirty(t) == CleanTag(line) <==> IsValid(t) && LineOf(t) == line
    ensures IsValid(CleanTag(line)) && !IsDirty(CleanTag(line)) && LineOf(CleanTag(line)) == line
    ensures IsDirty(WithDirty(t)) && LineOf(WithDirty(t)) == LineOf(t) && (IsValid(WithDirty(t)) <==> IsValid(t))
    ensures !IsValid(0) && !IsDirty(0)
  {
  }

  // ---- the replacement register

  /** reg = (reg >> 1) ^ (-(reg & 1) & 0xd0000001) */
  function Next(reg: u32): u32 {
    if reg % 2 == 0 then reg / 2 else XorFits(reg / 2); Or(reg / 2, 0xD000_0001) - And(reg / 2, 0xD000_0001)
  }

  lemma XorFits(x: u32)
    ensures Or(x, 0xD000_0001) < W32
  {
    Pow2Values();
    hide Pow2;
    OrBelow(x, 0xD000_0001, 32);
  }

  /** Started from 1, the register never sticks at 0. */
  lemma NextNonzero(reg: u32)
    requires reg != 0
    ensures Next(reg) != 0
  {
    if reg % 2 == 1 {
      XorFits(reg / 2);
      assert Or(reg / 2, 0xD000_0001) >= 0xD000_0001 && And(reg / 2, 0xD000_0001) <= reg / 2 < 0x8000_0000;
    }
  }

  // ---- one cache

  /** The fully associative cache keeps its tags in a map by line. */
  datatype Tags = SetAssoc(words: seq<u64>) | FullyAssoc(lines: map<u64, u64>)

  datatype Counters = Counters(
    readAccesses: nat, readMisses: nat, bytesRead: nat,
    writeAccesses: nat, writeMisses: nat, bytesWritten: nat, writebacks: nat)

  datatype Cache = Cache(
    sets: nat, ways: nat, linesz: nat, idxShift: nat, tagMode: bool, lfsr: u32, tags: Tags, n: Counters)

  /** The lines a cache holds, and those of them that are dirty. */
  ghost function Lines(tags: Tags): set<u64> {
    match tags
    case SetAssoc(words) => set p | 0 <= p < |words| && IsValid(words[p]) :: LineOf(words[p])
    case FullyAssoc(lines) => lines.Keys
  }

  ghost function DirtyLines(tags: Tags): set<u64> {
    match tags
    case SetAssoc(words) => set p | 0 <= p < |words| && IsValid(words[p]) && IsDirty(words[p]) :: LineOf(words[p])
    case FullyAssoc(lines) => set l | l in lines && IsDirty(lines[l])
  }

  /** No line is held twice, and a line is held only in the set it indexes to. */
  ghost predicate Placed(sets: nat, ways: nat, words: seq<u64>)
    requires sets > 0 && ways > 0
  {
    && |words| == sets * ways
    && (forall p :: 0 <= p < |words| ==> InSet(sets, ways, words, p))
    && (forall p, q :: 0 <= p < q < |words| && IsValid(words[p]) && IsValid(words[q]) ==>
          LineOf(words[p]) != LineOf(words[q]))
  }

  ghost predicate InSet(sets: nat, ways: nat, words: seq<u64>, p: nat)
    requires sets > 0 && ways > 0
  {
    p < |words| && (if IsValid(words[p]) then LineOf(words[p]) % sets == p / ways else words[p] == 0)
  }

  ghost predicate KeyedByLine(ways: nat, lines: map<u64, u64>) {
    |lines| <= ways && forall l :: l in lines ==> IsValid(lines[l]) && LineOf(lines[l]) == l
  }

  ghost predicate Holds(c: Cache) {
    && c.sets > 0 && c.ways > 0 && 4 <= c.idxShift <= 64 && 8 <= c.linesz < W64
    && match c.tags
       case SetAssoc(words) => Placed(c.sets, c.ways, words)
       case FullyAssoc(lines) => KeyedByLine(c.ways, lines)
  }

  /** addr >> idx_shift */
  function LineAt(c: Cache, addr: u64): (l: u64)
    requires 4 <= c.idxShift
    ensures l < DIRTY
  {
    LineFits(addr, c.idxShift);
    addr / Pow2(c.idxShift)
  }

  lemma LineFits(addr: u64, shift: nat)
    requires 4 <= shift
    ensures 0 <= addr / Pow2(shift) < 0x1000_0000_0000_0000
  {
    assert Pow2(4) == 16;
    hide Pow2;
    Pow2Mono(4, shift);
    MulLe(16, Pow2(shift), 0x1000_0000_0000_0000);
    QuotientBelow(addr, Pow2(shift), 0x1000_0000_0000_0000);
    DivBounds(addr, Pow2(shift));
  }

  // ---- set-associative lookup and replacement

  lemma InItsSet(sets: nat, ways: nat, words: seq<u64>, p: nat, line: u64)
    requires sets > 0 && ways > 0 && Placed(sets, ways, words) && p < |words| && IsValid(words[p])
             && LineOf(words[p]) == line
    ensures var base := line % sets * ways; base <= p < base + ways
  {
    assert InSet(sets, ways, words, p);
    DivMod(p, ways);
  }

  lemma SetFits(sets: nat, ways: nat, line: nat)
    requires sets > 0 && ways > 0
    ensures 0 <= line % sets < sets && line % sets * ways + ways <= sets * ways
  {
    DivMod(line, sets);
    MulLe(line % sets + 1, sets, ways);
    AddMul(line % sets, 1, ways);
  }

  /** check_tag: the way that holds the line, if any. */
  method CheckTag(sets: nat, ways: nat, words: seq<u64>, line: u64) returns (way: Option<nat>)
    requires sets > 0 && ways > 0 && Placed(sets, ways, words) && line < DIRTY
    ensures match way
            case Some(p) => p < |words| && IsValid(words[p]) && LineOf(words[p]) == line
            case None => forall p :: 0 <= p < |words| && IsValid(words[p]) ==> LineOf(words[p]) != line
  {
    hide InSet, WithoutDirty, CleanTag, IsValid, LineOf;
    SetFits(sets, ways, line);
    var base := line % sets * ways;
    for i := 0 to ways
      invariant forall p :: base <= p < base + i ==> WithoutDirty(words[p]) != CleanTag(line)
    {
      if CleanTag(line) == WithoutDirty(words[base + i]) {
        TagWord(words[base + i], line);
        return Some(base + i);
      }
    }
    forall p | 0 <= p < |words| && IsValid(words[p]) ensures LineOf(words[p]) != line {
      TagWord(words[p], line);
      if LineOf(words[p]) == line { InItsSet(sets, ways, words, p, line); }
    }
    way := None;
  }

  /** The line a replaced word held, if it held one. */
  function Gone(victim: u64): set<u64> {
    if IsValid(victim) then {LineOf(victim)} else {}
  }

  /** line took the place of the victim, clean; nothing else changed. */
  ghost predicate Replaced(tags: Tags, tags': Tags, victim: u64, line: u64) {
    && Lines(tags') == Lines(tags) - Gone(victim) + {line}
    && DirtyLines(tags') == DirtyLines(tags) - Gone(victim)
    && (IsValid(victim) ==> LineOf(victim) in Lines(tags) && (IsDirty(victim) <==> LineOf(victim) in DirtyLines(tags)))
    && line !in Lines(tags)
  }

  lemma WordLine(words: seq<u64>, p: nat)
    requires p < |words| && IsValid(words[p])
    ensures LineOf(words[p]) in Lines(SetAssoc(words))
    ensures IsDirty(words[p]) ==> LineOf(words[p]) in DirtyLines(SetAssoc(words))
  {
  }

  /** Distinct lines: a dirty line is the line of a dirty word. */
  lemma DirtyWord(sets: nat, ways: nat, words: seq<u64>, p: nat)
    requires sets > 0 && ways > 0 && Placed(sets, ways, words) && p < |words| && IsValid(words[p])
    ensures IsDirty(words[p]) <==> LineOf(words[p]) in DirtyLines(SetAssoc(words))
  {
    hide IsValid, IsDirty, LineOf, InSet;
    if LineOf(words[p]) in DirtyLines(SetAssoc(words)) {
      var q :| 0 <= q < |words| && IsValid(words[q]) && IsDirty(words[q]) && LineOf(words[q]) == LineOf(words[p]);
      assert q == p;
    }
  }

  lemma ReplaceWord(sets: nat, ways: nat, words: seq<u64>, p: nat, line: u64)
    requires sets > 0 && ways > 0 && Placed(sets, ways, words) && p < |words| && p / ways == line % sets
    requires line < DIRTY && line !in Lines(SetAssoc(words))
    ensures Placed(sets, ways, words[p := CleanTag(line)])
    ensures Replaced(SetAssoc(words), SetAssoc(words[p := CleanTag(line)]), words[p], line)
  {
    var words' := words[p := CleanTag(line)];
    TagWord(words[p], line);
    hide IsValid, IsDirty, LineOf, CleanTag;
    StillPlaced(sets, ways, words, p, words');
    if IsValid(words[p]) { WordLine(words, p); DirtyWord(sets, ways, words, p); }
    LinesReplaced(sets, ways, words, p, words');
  }

  lemma StillPlaced(sets: nat, ways: nat, words: seq<u64>, p: nat, words': seq<u64>)
    requires sets > 0 && ways > 0 && Placed(sets, ways, words) && |words'| == |words| && p < |words|
             && words' == words[p := words'[p]]
    requires IsValid(words'[p]) && LineOf(words'[p]) % sets == p / ways
    requires LineOf(words'[p]) !in Lines(SetAssoc(words))
             || (IsValid(words[p]) && LineOf(words'[p]) == LineOf(words[p]))
    ensures Placed(sets, ways, words')
  {
    hide IsValid, IsDirty, LineOf;
    forall q | 0 <= q < |words'| ensures InSet(sets, ways, words', q) {
      assert InSet(sets, ways, words, q);
    }
    forall q | 0 <= q < |words'| && q != p && IsValid(words'[q]) ensures LineOf(words'[q]) != LineOf(words'[p]) {
      WordLine(words, q);
    }
  }

  lemma LinesReplaced(sets: nat, ways: nat, words: seq<u64>, p: nat, words': seq<u64>)
    requires sets > 0 && ways > 0 && Placed(sets, ways, words) && Placed(sets, ways, words')
    requires p < |words| && words' == words[p := words'[p]] && IsValid(words'[p])
    ensures Lines(SetAssoc(words')) == Lines(SetAssoc(words)) - Gone(words[p]) + {LineOf(words'[p])}
    ensures var d := if IsDirty(words'[p]) then {LineOf(words'[p])} else {};
            DirtyLines(SetAssoc(words')) == DirtyLines(SetAssoc(words)) - Gone(words[p]) + d
  {
    hide IsValid, IsDirty, LineOf, InSet;
    var a, b := SetAssoc(words), SetAssoc(words');
    forall l ensures l in Lines(b) <==> l in Lines(a) - Gone(words[p]) + {LineOf(words'[p])} {
      LineMoves(words, words', p, l);
    }
    var d := if IsDirty(words'[p]) then {LineOf(words'[p])} else {};
    forall l ensures l in DirtyLines(b) <==> l in DirtyLines(a) - Gone(words[p]) + d {
      DirtyMoves(words, words', p, l);
    }
  }

  lemma LineMoves(words: seq<u64>, words': seq<u64>, p: nat, l: u64)
    requires |words'| == |words| && p < |words| && words' == words[p := words'[p]] && IsValid(words'[p])
    requires forall q, r :: 0 <= q < r < |words| && IsValid(words[q]) && IsValid(words[r]) ==>
               LineOf(words[q]) != LineOf(words[r])
    ensures l in Lines(SetAssoc(words')) <==> l in Lines(SetAssoc(words)) - Gone(words[p]) + {LineOf(words'[p])}
  {
    hide IsValid, LineOf;
    if l in Lines(SetAssoc(words')) {
      var q :| 0 <= q < |words'| && IsValid(words'[q]) && LineOf(words'[q]) == l;
      assert q == p || words'[q] == words[q];
    }
    if l in Lines(SetAssoc(words)) - Gone(words[p]) {
      var q :| 0 <= q < |words| && IsValid(words[q]) && LineOf(words[q]) == l;
      assert q != p && words'[q] == words[q];
    }
    WordLine(words', p);
  }

  lemma DirtyMoves(words: seq<u64>, words': seq<u64>, p: nat, l: u64)
    requires |words'| == |words| && p < |words| && words' == words[p := words'[p]] && IsValid(words'[p])
    requires forall q, r :: 0 <= q < r < |words| && IsValid(words[q]) && IsValid(words[r]) ==>
               LineOf(words[q]) != LineOf(words[r])
    ensures var d := if IsDirty(words'[p]) then {LineOf(words'[p])} else {};
            l in DirtyLines(SetAssoc(words')) <==> l in DirtyLines(SetAssoc(words)) - Gone(words[p]) + d
  {
    hide IsValid, IsDirty, LineOf;
    if l in DirtyLines(SetAssoc(words')) {
      var q :| 0 <= q < |words'| && IsValid(words'[q]) && IsDirty(words'[q]) && LineOf(words'[q]) == l;
      assert q == p || words'[q] == words[q];
    }
    if l in DirtyLines(SetAssoc(words)) - Gone(words[p]) {
      var q :| 0 <= q < |words| && IsValid(words[q]) && IsDirty(words[q]) && LineOf(words[q]) == l;
      assert q != p && words'[q] == words[q];
    }
    WordLine(words', p);
  }

  lemma DirtyAt(sets: nat, ways: nat, words: seq<u64>, p: nat, line: u64)
    requires sets > 0 && ways > 0 && Placed(sets, ways, words) && p < |words| && IsValid(words[p])
             && LineOf(words[p]) == line
    ensures var words' := words[p := WithDirty(words[p])];
            && Placed(sets, ways, words')
            && Lines(SetAssoc(words')) == Lines(SetAssoc(words))
            && DirtyLines(SetAssoc(words')) == DirtyLines(SetAssoc(words)) + {line}
  {
    var words' := words[p := WithDirty(words[p])];
    TagWord(words[p], line);
    assert InSet(sets, ways, words, p);
    hide IsValid, IsDirty, LineOf, WithDirty;
    StillPlaced(sets, ways, words, p, words');
    WordLine(words, p);
    LinesReplaced(sets, ways, words, p, words');
  }

  // ---- the fully associative cache

  lemma ReplaceKey(ways: nat, lines: map<u64, u64>, victim: Option<u64>, line: u64, lines': map<u64, u64>)
    requires KeyedByLine(ways, lines) && line < DIRTY && line !in lines && ways > 0
    requires match victim case Some(v) => v in lines case None => |lines| < ways
    requires lines' == (if victim.Some? then lines - {victim.value} else lines)[line := CleanTag(line)]
    ensures KeyedByLine(ways, lines')
    ensures Replaced(FullyAssoc(lines), FullyAssoc(lines'), if victim.Some? then lines[victim.value] else 0, line)
  {
    TagWord(0, line);
    var kept := if victim.Some? then lines - {victim.value} else lines;
    Kept(lines, victim, kept);
    hide IsValid, IsDirty, LineOf, CleanTag;
    AddKey(ways, kept, line, lines');
    hide KeyedByLine;
    DirtyKept(ways, lines, victim, kept);
  }

  lemma Kept(lines: map<u64, u64>, victim: Option<u64>, kept: map<u64, u64>)
    requires victim.Some? ==> victim.value in lines
    requires kept == if victim.Some? then lines - {victim.value} else lines
    ensures kept.Keys == if victim.Some? then lines.Keys - {victim.value} else lines.Keys
    ensures |kept| == if victim.Some? then |lines| - 1 else |lines|
    ensures forall l :: l in kept ==> l in lines && kept[l] == lines[l]
  {
    assert kept.Keys == if victim.Some? then lines.Keys - {victim.value} else lines.Keys;
    assert |kept| == |kept.Keys| && |lines| == |lines.Keys|;
  }

  lemma AddKey(ways: nat, kept: map<u64, u64>, line: u64, lines': map<u64, u64>)
    requires KeyedByLine(ways, kept) && |kept| < ways && line !in kept && line < DIRTY
             && lines' == kept[line := CleanTag(line)]
    ensures KeyedByLine(ways, lines') && Lines(FullyAssoc(lines')) == kept.Keys + {line}
    ensures DirtyLines(FullyAssoc(lines')) == DirtyLines(FullyAssoc(kept))
  {
    TagWord(0, line);
    assert lines'.Keys == kept.Keys + {line};
    assert |lines'| == |lines'.Keys| && |kept| == |kept.Keys|;
    hide IsValid, IsDirty, LineOf, CleanTag;
  }

  lemma DirtyKept(ways: nat, lines: map<u64, u64>, victim: Option<u64>, kept: map<u64, u64>)
    requires victim.Some? ==>
               victim.value in lines && LineOf(lines[victim.value]) == victim.value && IsValid(lines[victim.value])
    requires kept == if victim.Some? then lines - {victim.value} else lines
    ensures var v := if victim.Some? then lines[victim.value] else 0;
            && kept.Keys == lines.Keys - Gone(v)
            && DirtyLines(FullyAssoc(kept)) == DirtyLines(FullyAssoc(lines)) - Gone(v)
  {
    TagWord(0, 0);
    hide IsDirty, LineOf, IsValid;
  }

  lemma DirtyKey(ways: nat, lines: map<u64, u64>, line: u64)
    requires KeyedByLine(ways, lines) && line in lines
    ensures var lines' := lines[line := WithDirty(lines[line])];
            && KeyedByLine(ways, lines')
            && Lines(FullyAssoc(lines')) == Lines(FullyAssoc(lines))
            && DirtyLines(FullyAssoc(lines')) == DirtyLines(FullyAssoc(lines)) + {line}
  {
    TagWord(lines[line], LineOf(lines[line]));
    var lines' := lines[line := WithDirty(lines[line])];
    assert lines'.Keys == lines.Keys;
    assert |lines'| == |lines'.Keys| && |lines| == |lines.Keys|;
    hide IsValid, IsDirty, LineOf, WithDirty;
  }

  // ---- the operations on one cache

  method Lookup(c: Cache, line: u64) returns (hit: bool)
    requires Holds(c) && line < DIRTY
    ensures hit <==> line in Lines(c.tags)
  {
    match c.tags
    case SetAssoc(words) =>
      hide Placed, IsValid, LineOf;
      var way := CheckTag(c.sets, c.ways, words, line);
      hit := way.Some?;
    case FullyAssoc(lines) =>
      hit := line in lines;
  }

  /** *check_tag(addr) |= DIRTY */
  method MarkDirty(c: Cache, line: u64) returns (tags: Tags)
    requires Holds(c) && line < DIRTY && line in Lines(c.tags)
    ensures Holds(c.(tags := tags)) && tags.SetAssoc? == c.tags.SetAssoc?
    ensures Lines(tags) == Lines(c.tags) && DirtyLines(tags) == DirtyLines(c.tags) + {line}
  {
    match c.tags
    case SetAssoc(words) =>
      hide Placed, IsValid, LineOf, WithDirty, IsDirty;
      var way := CheckTag(c.sets, c.ways, words, line);
      DirtyAt(c.sets, c.ways, words, way.value, line);
      tags := SetAssoc(words[way.value := WithDirty(words[way.value])]);
    case FullyAssoc(lines) =>
      hide KeyedByLine, WithDirty, IsDirty;
      DirtyKey(c.ways, lines, line);
      tags := FullyAssoc(lines[line := WithDirty(lines[line])]);
  }

  /** The victim is the one the shift register points at. */
  ghost predicate Chosen(c: Cache, line: u64, victim: u64, lfsr: u32) {
    && c.sets > 0 && c.ways > 0
    && match c.tags
       case SetAssoc(words) =>
         var p := Slot(c.sets, c.ways, line, lfsr);
         lfsr == Next(c.lfsr) && p < |words| && victim == words[p]
       case FullyAssoc(lines) =>
         if |lines| < c.ways then victim == 0 && lfsr == c.lfsr
         else
           && lfsr == Next(c.lfsr) && LineOf(victim) in lines && victim == lines[LineOf(victim)]
           && |Before(lines.Keys, LineOf(victim))| == lfsr % c.ways
  }

  method Victimize(c: Cache, line: u64) returns (c': Cache, victim: u64)
    requires Holds(c) && line < DIRTY && line !in Lines(c.tags)
    ensures c' == c.(tags := c'.tags, lfsr := c'.lfsr) && c'.tags.SetAssoc? == c.tags.SetAssoc?
    ensures Holds(c') && Replaced(c.tags, c'.tags, victim, line) && Chosen(c, line, victim, c'.lfsr)
  {
    hide Replaced, Placed, KeyedByLine, Next, LineOf;
    match c.tags
    case SetAssoc(words) =>
      PlacedSize(c.sets, c.ways, words);
      var words', lfsr;
      words', lfsr, victim := VictimizeSet(c.sets, c.ways, words, c.lfsr, line);
      c' := c.(tags := SetAssoc(words'), lfsr := lfsr);
    case FullyAssoc(lines) =>
      KeyCount(c.ways, lines);
      var lines', lfsr;
      lines', lfsr, victim := VictimizeAny(c.ways, lines, c.lfsr, line);
      c' := c.(tags := FullyAssoc(lines'), lfsr := lfsr);
  }

  /** cache_sim_t evicts the way the register points at. */
  method VictimizeSet(sets: nat, ways: nat, words: seq<u64>, reg: u32, line: u64)
    returns (words': seq<u64>, lfsr: u32, victim: u64)
    requires sets > 0 && ways > 0 && Placed(sets, ways, words) && line < DIRTY && line !in Lines(SetAssoc(words))
    ensures Placed(sets, ways, words') && Replaced(SetAssoc(words), SetAssoc(words'), victim, line)
    ensures lfsr == Next(reg) && victim == words[Slot(sets, ways, line, lfsr)]
  {
    hide Placed, Replaced, Next, Lines, CleanTag;
    lfsr := Next(reg);
    PlacedSize(sets, ways, words);
    var p := Slot(sets, ways, line, lfsr);
    victim := words[p];
    ReplaceWord(sets, ways, words, p, line);
    words' := words[p := CleanTag(line)];
  }

  /** idx*ways + way */
  function Slot(sets: nat, ways: nat, line: u64, reg: u32): (p: nat)
    requires sets > 0 && ways > 0
    ensures p < sets * ways && p / ways == line % sets
  {
    SlotFits(sets, ways, line, reg);
    line % sets * ways + reg % ways
  }

  lemma SlotFits(sets: nat, ways: nat, line: nat, reg: nat)
    requires sets > 0 && ways > 0
    ensures var p := line % sets * ways + reg % ways; 0 <= p < sets * ways && p / ways == line % sets
  {
    DivMod(reg, ways);
    SetFits(sets, ways, line);
    ModIs(line % sets * ways + reg % ways, line % sets, reg % ways, ways);
  }

  /** fa_cache_sim_t evicts, when full, the line that as many keys precede in
      the map as the register says. */
  method VictimizeAny(ways: nat, lines: map<u64, u64>, reg: u32, line: u64)
    returns (lines': map<u64, u64>, lfsr: u32, victim: u64)
    requires ways > 0 && KeyedByLine(ways, lines) && line < DIRTY && line !in lines
    ensures KeyedByLine(ways, lines') && Replaced(FullyAssoc(lines), FullyAssoc(lines'), victim, line)
    ensures |lines| < ways ==> victim == 0 && lfsr == reg
    ensures |lines| == ways ==>
              lfsr == Next(reg) && LineOf(victim) in lines && victim == lines[LineOf(victim)]
              && |Before(lines.Keys, LineOf(victim))| == lfsr % ways
  {
    hide Replaced, Next, CleanTag, LineOf;
    var kept, gone: Option<u64> := lines, None;
    lfsr := reg;
    victim := 0;
    if |lines| == ways {
      lfsr := Next(reg);
      var v := Advance(lines.Keys, lfsr % ways);
      victim := lines[v];
      kept := lines - {v};
      gone := Some(v);
    }
    lines' := kept[line := CleanTag(line)];
    ReplaceKey(ways, lines, gone, line, lines');
  }

  ghost function Before(keys: set<u64>, v: u64): set<u64> { set l | l in keys && l < v }

  /** A map's keys come in order: the one n places from the first. */
  method Advance(keys: set<u64>, n: nat) returns (v: u64)
    requires n < |keys|
    ensures v in keys && |Before(keys, v)| == n
  {
    var rest := keys;
    for i := 0 to n
      invariant rest <= keys && |rest| == |keys| - i
      invariant forall l, r :: l in keys && l !in rest && r in rest ==> l < r
    {
      LeastExists(rest);
      var least: u64 :| least in rest && IsLeast(rest, least);
      rest := rest - {least};
      assert forall r :: r in rest ==> least < r;
    }
    LeastExists(rest);
    v :| v in rest && IsLeast(rest, v);
    assert Before(keys, v) == keys - rest;
  }

  predicate IsLeast(keys: set<u64>, v: u64) { v in keys && forall l :: l in keys ==> v <= l }

  lemma {:induction false} LeastExists(keys: set<u64>)
    requires keys != {}
    ensures exists v :: IsLeast(keys, v)
  {
    var w :| w in keys;
    var rest := keys - {w};
    if rest == {} {
      forall l | l in keys ensures w <= l { assert l == w || l in rest; }
      assert IsLeast(keys, w);
    } else {
      LeastExists(rest);
      var v :| IsLeast(rest, v);
      var least := if w < v then w else v;
      forall l | l in keys ensures least <= l { assert l == w || l in rest; }
      assert IsLeast(keys, least);
    }
  }

  lemma KeyCount(ways: nat, lines: map<u64, u64>)
    requires KeyedByLine(ways, lines)
    ensures |lines| <= ways
  {
  }

  lemma PlacedSize(sets: nat, ways: nat, words: seq<u64>)
    requires sets > 0 && ways > 0 && Placed(sets, ways, words)
    ensures |words| == sets * ways
  {
  }

  lemma EvictionCounts(tags: Tags, tags': Tags, victim: u64, line: u64)
    requires Replaced(tags, tags', victim, line)
    ensures |DirtyLines(tags)| == |DirtyLines(tags')| + if IsValid(victim) && IsDirty(victim) then 1 else 0
  {
    hide IsValid, IsDirty, LineOf, Lines, DirtyLines;
    if IsValid(victim) && IsDirty(victim) {
      assert DirtyLines(tags) == DirtyLines(tags') + {LineOf(victim)};
    } else {
      assert DirtyLines(tags) == DirtyLines(tags');
    }
  }

  /** init: with linesz a power of two the shift comes out one more than its
      logarithm, so a line of the simulator is twice as long as configured. */
  method IdxShift(linesz: u64) returns (shift: nat)
    requires linesz > 0
    ensures shift > 0 && Pow2(shift - 1) <= linesz < Pow2(shift)
  {
    shift := 0;
    var x := linesz;
    while x != 0
      invariant 0 <= x && x * Pow2(shift) <= linesz < (x + 1) * Pow2(shift)
      invariant x == 0 ==> shift > 0 && Pow2(shift - 1) <= linesz
      decreases x
    {
      HalveBounds(x, shift, linesz);
      shift := shift + 1;
      x := x / 2;
    }
  }

  lemma HalveBounds(x: nat, shift: nat, n: nat)
    requires x > 0 && x * Pow2(shift) <= n < (x + 1) * Pow2(shift)
    ensures x / 2 * Pow2(shift + 1) <= n < (x / 2 + 1) * Pow2(shift + 1)
    ensures x / 2 == 0 ==> Pow2(shift) <= n
  {
    var p := Pow2(shift);
    assert Pow2(shift + 1) == 2 * p;
    hide Pow2;
    Assoc(x / 2, 2, p);
    Assoc(x / 2 + 1, 2, p);
    MulLe(x / 2 * 2, x, p);
    MulLe(x + 1, (x / 2 + 1) * 2, p);
  }

  lemma IdxShiftOfPower(k: nat, shift: nat)
    requires shift > 0 && Pow2(shift - 1) <= Pow2(k) < Pow2(shift)
    ensures shift == k + 1
  {
    hide Pow2;
    if shift - 1 > k { Pow2Mono(k, shift - 1); }
    if shift <= k { Pow2Mono(shift, k); }
  }

  // ---- construct and init

  predicate IsPower(x: nat) { x > 0 && And(x, x - 1) == 0 }

  lemma {:induction false} AndSelf(x: nat)
    ensures And(x, x) == x
  {
    if x > 0 { AndSelf(x / 2); }
  }

  /** x & (x - 1) is 0 for the powers of two alone. */
  lemma {:induction false} PowerTest(x: nat) returns (k: nat)
    requires x > 0
    ensures IsPower(x) ==> x == Pow2(k)
  {
    k := 0;
    if x % 2 == 1 {
      assert (x - 1) / 2 == x / 2;
      AndSelf(x / 2);
    } else {
      assert (x - 1) / 2 == x / 2 - 1;
      k := PowerTest(x / 2);
      k := k + 1;
    }
  }

  lemma {:induction false} PowerPasses(k: nat)
    ensures IsPower(Pow2(k))
  {
    if k > 0 {
      PowerPasses(k - 1);
      assert Pow2(k) == 2 * Pow2(k - 1) && (Pow2(k) - 1) / 2 == Pow2(k - 1) - 1;
    }
  }

  const ZERO: Counters := Counters(0, 0, 0, 0, 0, 0, 0)

  /** A configuration is refused unless sets and linesz are powers of two and
      linesz is at least 8; more than four ways in one set mean a fully
      associative cache.  A cache with no ways is not refused, but its first
      access evicts, and that divides by the number of ways: of the caches
      constructed, those that can be used are the ones with a way. */
  method Construct(sets: nat, ways: nat, linesz: u64, tagMode: bool) returns (r: Option<Cache>)
    ensures r.Some? <==> IsPower(sets) && linesz >= 8 && IsPower(linesz)
    ensures r.Some? ==>
              var c := r.value;
              && Lines(c.tags) == {} && DirtyLines(c.tags) == {} && c.n == ZERO
              && (Holds(c) <==> ways > 0)
              && c.sets == sets && c.ways == ways && c.tagMode == tagMode
              && c.idxShift > 0 && c.linesz == linesz == Pow2(c.idxShift - 1)
              && c.tags.FullyAssoc? == (ways > 4 && sets == 1)
  {
    if !IsPower(sets) || linesz < 8 || !IsPower(linesz) { return None; }
    var shift := IdxShift(linesz);
    ShiftOf(linesz, shift);
    TagWord(0, 0);
    hide Pow2, IsPower, Placed, InSet, IsValid, IsDirty, LineOf;
    if ways > 4 && sets == 1 {
      r := Some(Cache(sets, ways, linesz, shift, tagMode, 1, FullyAssoc(map[]), ZERO));
    } else {
      EmptySet(sets, ways);
      r := Some(Cache(sets, ways, linesz, shift, tagMode, 1, SetAssoc(seq(sets * ways, i => 0)), ZERO));
    }
  }

  lemma ShiftOf(linesz: u64, shift: nat)
    requires linesz >= 8 && IsPower(linesz) && shift > 0 && Pow2(shift - 1) <= linesz < Pow2(shift)
    ensures linesz == Pow2(shift - 1) && 4 <= shift <= 64
  {
    var k := PowerTest(linesz);
    IdxShiftOfPower(k, shift);
    assert Pow2(3) == 8;
    Pow2Values();
    hide Pow2;
    if k < 3 { Pow2Mono(k, 3); }
    if k >= 64 { Pow2Mono(64, k); }
  }

  lemma EmptySet(sets: nat, ways: nat)
    requires sets > 0
    ensures sets * ways >= 0
    ensures ways > 0 ==> Placed(sets, ways, seq(sets * ways, i => 0))
    ensures Lines(SetAssoc(seq(sets * ways, i => 0))) == {} && DirtyLines(SetAssoc(seq(sets * ways, i => 0))) == {}
  {
    TagWord(0, 0);
  }
}
