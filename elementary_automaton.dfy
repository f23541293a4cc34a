/**
 * The elementary (one-dimensional, two-state, radius-one) cellular automaton:
 * a ring of N cells holding 0 or 1, advanced by an 8-entry rule table that is
 * read off the bits of a rule number.
 */
module ElementaryAutomaton {

  // ---------------------------------------------------------------------------
  // Rule numbers and rule tables
  // ---------------------------------------------------------------------------

  function Pow2(k: nat): (p: nat)
    ensures p > 0
  {
    if k == 0 then 1 else 2 * Pow2(k - 1)
  }

  /**
   * Java's arithmetic shift `r >> i`: i halvings, each rounding toward minus
   * infinity, which is the floor of r / 2^i.
   */
  function ShiftRight(r: int, i: nat): (s: int)
    ensures Pow2(i) * s <= r < Pow2(i) * s + Pow2(i)
    decreases i
  {
    if i == 0 then r
    else
      var s := ShiftRight(r / 2, i - 1);
      assert Pow2(i) * s == 2 * (Pow2(i - 1) * s);
      s
  }

  /** The floor of r / p is 0 for r in [0, p) and -1 for r in [-p, 0). */
  lemma FloorNearZero(r: int, p: int, s: int)
    requires p > 0 && p * s <= r < p * s + p
    ensures 0 <= r < p ==> s == 0
    ensures -p <= r < 0 ==> s == -1
  {
    if s > 0 {
      assert p * s == p * (s - 1) + p;
      MulNonNegative(p, s - 1);
    } else if s < -1 {
      assert p * s + p == p * (s + 2) - p;
      MulNonNegative(p, -(s + 2));
    }
  }

  lemma MulNonNegative(p: int, a: int)
    requires p > 0 && a >= 0
    ensures p * a >= 0
  {
  }

  /**
   * Java's `((r >> i) & 1) == 1`: bit i of the two's-complement r. Above the
   * width of r the bits are 0 for a non-negative r and 1 for a negative one.
   */
  predicate Bit(r: int, i: nat): (b: bool)
    ensures 0 <= r < Pow2(i) ==> !b
    ensures -(Pow2(i) as int) <= r < 0 ==> b
  {
    FloorNearZero(r, Pow2(i), ShiftRight(r, i));
    ShiftRight(r, i) % 2 == 1
  }

  /** The rule table of rule number r: entry k tells whether neighbourhood code k yields a live cell. */
  function RuleTable(r: int): (t: seq<bool>)
    ensures |t| == 8
  {
    seq(8, k requires 0 <= k => Bit(r, k))
  }

  /** The number that a table of bits encodes, entry k weighing 2^k (the inverse of RuleTable). */
  function RuleNumber(t: seq<bool>): (r: nat)
  {
    if t == [] then 0 else (if t[0] then 1 else 0) + 2 * RuleNumber(t[1..])
  }

  /** Reading the low k bits of a number below 2^k and encoding them again gives the number back. */
  lemma {:induction false} LowBitsRoundTrip(r: int, k: nat)
    requires 0 <= r < Pow2(k)
    ensures RuleNumber(seq(k, i requires 0 <= i => Bit(r, i))) == r
  {
    if k > 0 {
      var s := seq(k, i requires 0 <= i => Bit(r, i));
      assert s[1..] == seq(k - 1, i requires 0 <= i => Bit(r / 2, i));
      LowBitsRoundTrip(r / 2, k - 1);
    }
  }

  /** Bit 0 is the remainder modulo 2. */
  lemma LowestBit(r: int)
    ensures Bit(r, 0) == (r % 2 == 1)
  {
    assert ShiftRight(r, 0) == r;
  }

  /** Bit i of r is bit i - 1 of r halved (rounding down). */
  lemma HigherBit(r: int, i: nat)
    requires i > 0
    ensures Bit(r, i) == Bit(r / 2, i - 1)
  {
    assert ShiftRight(r, i) == ShiftRight(r / 2, i - 1);
  }

  /** Bit i of the number a table encodes is entry i of the table. */
  lemma {:induction false} BitOfRuleNumber(t: seq<bool>, i: nat)
    requires i < |t|
    ensures Bit(RuleNumber(t), i) == t[i]
  {
    if i == 0 {
      LowestBit(RuleNumber(t));
    } else {
      HigherBit(RuleNumber(t), i);
      assert RuleNumber(t) / 2 == RuleNumber(t[1..]);
      BitOfRuleNumber(t[1..], i - 1);
    }
  }

  /** For a rule number in [0, 255] the table gives the number back. */
  lemma RuleTableRoundTrip(r: int)
    requires 0 <= r <= 255
    ensures RuleNumber(RuleTable(r)) == r
  {
    assert Pow2(8) == 256;
    LowBitsRoundTrip(r, 8);
  }

  /** Every table of 8 entries is the rule table of exactly one number in [0, 255]. */
  lemma TableRoundTrip(t: seq<bool>)
    requires |t| == 8
    ensures 0 <= RuleNumber(t) <= 255
    ensures RuleTable(RuleNumber(t)) == t
  {
    RuleNumberBound(t);
    forall i | 0 <= i < 8
      ensures RuleTable(RuleNumber(t))[i] == t[i]
    {
      BitOfRuleNumber(t, i);
    }
  }

  lemma {:induction false} RuleNumberBound(t: seq<bool>)
    ensures RuleNumber(t) < Pow2(|t|)
  {
    if t != [] {
      RuleNumberBound(t[1..]);
    }
  }

  /** Two rule numbers in [0, 255] with the same table are equal. */
  lemma RuleTableInjective(a: int, b: int)
    requires 0 <= a <= 255 && 0 <= b <= 255
    requires RuleTable(a) == RuleTable(b)
    ensures a == b
  {
    RuleTableRoundTrip(a);
    RuleTableRoundTrip(b);
  }

  // ---------------------------------------------------------------------------
  // Generations
  // ---------------------------------------------------------------------------

  /** Every cell is 0 or 1. */
  predicate IsBinary(g: seq<int>)
  {
    forall i :: 0 <= i < |g| ==> g[i] == 0 || g[i] == 1
  }

  /** The default first generation of n cells: a single 1 in the middle cell n / 2. */
  function InitialGeneration(n: nat): (g: seq<int>)
    ensures |g| == n && IsBinary(g)
    ensures forall i :: 0 <= i < n ==> (g[i] == 1 <==> i == n / 2)
  {
    seq(n, i => if i == n / 2 then 1 else 0)
  }

  /** The generation of n cells that a string loads to: cell i is 1 exactly when s has a '1' at i. */
  function FromBinary(s: string, n: nat): (g: seq<int>)
    ensures |g| == n && IsBinary(g)
    ensures forall i :: 0 <= i < n ==> (g[i] == 1 <==> i < |s| && s[i] == '1')
  {
    seq(n, i requires 0 <= i => if i < |s| && s[i] == '1' then 1 else 0)
  }

  /** The text of a generation, one '0' or '1' per cell. */
  function ToBinary(g: seq<int>): (s: string)
    ensures |s| == |g| && IsBitString(s)
    ensures forall i :: 0 <= i < |g| ==> (s[i] == '1' <==> g[i] == 1)
  {
    seq(|g|, i requires 0 <= i < |g| => if g[i] == 1 then '1' else '0')
  }

  /** Strings made of '0' and '1' only. */
  predicate IsBitString(s: string)
  {
    forall i :: 0 <= i < |s| ==> s[i] == '0' || s[i] == '1'
  }

  /**
   * Loading a string and printing it back gives the string cut or padded with
   * '0' to n characters, every character other than '1' read as '0'.
   */
  lemma LoadThenPrint(s: string, n: nat)
    ensures |ToBinary(FromBinary(s, n))| == n
    ensures forall i :: 0 <= i < n ==>
      ToBinary(FromBinary(s, n))[i] == if i < |s| && s[i] == '1' then '1' else '0'
    ensures IsBinary(FromBinary(s, n))
  {
  }

  /** On strings of exactly n '0'/'1' characters, load then print is the identity. */
  lemma LoadThenPrintIdentity(s: string, n: nat)
    requires |s| == n && IsBitString(s)
    ensures ToBinary(FromBinary(s, n)) == s
  {
    LoadThenPrint(s, n);
  }

  /** On generations of 0/1 cells, print then load is the identity. */
  lemma PrintThenLoadIdentity(g: seq<int>)
    requires IsBinary(g)
    ensures FromBinary(ToBinary(g), |g|) == g
  {
  }

  /** The characters past the first n do not matter: loading truncates. */
  lemma LoadIgnoresTail(s: string, n: nat)
    requires n <= |s|
    ensures FromBinary(s, n) == FromBinary(s[..n], n)
  {
  }

  /** Appending '0' characters does not change what is loaded: a short string is padded with 0. */
  lemma LoadPadsWithZeros(s: string, n: nat, k: nat)
    ensures FromBinary(s + seq(k, _ => '0'), n) == FromBinary(s, n)
  {
  }

  // ---------------------------------------------------------------------------
  // One step on the ring
  // ---------------------------------------------------------------------------

  /** The neighbourhood code (left, self, right) of cell i, with the ring wrapping at both ends. */
  function Code(g: seq<int>, i: nat): (c: nat)
    requires IsBinary(g) && i < |g|
    ensures c < 8
  {
    var n := |g|;
    4 * g[(i - 1) % n] + 2 * g[i] + g[(i + 1) % n]
  }

  /** The next generation: each cell is the rule-table entry of its code in the previous generation. */
  function NextRow(rule: seq<bool>, g: seq<int>): (r: seq<int>)
    requires |rule| == 8 && IsBinary(g)
    ensures |r| == |g| && IsBinary(r)
  {
    seq(|g|, i requires 0 <= i < |g| => if rule[Code(g, i)] then 1 else 0)
  }

  /** The generation after k steps. */
  function Iterate(rule: seq<bool>, g: seq<int>, k: nat): (r: seq<int>)
    requires |rule| == 8 && IsBinary(g)
    ensures |r| == |g| && IsBinary(r)
    decreases k
  {
    if k == 0 then g else Iterate(rule, NextRow(rule, g), k - 1)
  }

  /** Java's explicit wrap-around at the two ends agrees with arithmetic modulo n. */
  lemma RingNeighbours(i: nat, n: nat)
    requires i < n
    ensures (i - 1) % n == if i == 0 then n - 1 else i - 1
    ensures (i + 1) % n == if i == n - 1 then 0 else i + 1
  {
  }

  /** On a ring of one cell, left, self and right are all cell 0. */
  lemma SingleCellRing(g: seq<int>)
    requires |g| == 1 && IsBinary(g)
    ensures Code(g, 0) == 7 * g[0]
  {
  }

  lemma {:induction false} ShiftZero(i: nat)
    ensures ShiftRight(0, i) == 0
  {
    if i > 0 {
      ShiftZero(i - 1);
    }
  }

  /** Rule 0 turns every generation into all zeros in one step. */
  lemma RuleZeroClears(g: seq<int>)
    requires IsBinary(g)
    ensures NextRow(RuleTable(0), g) == seq(|g|, _ => 0)
  {
    forall k | 0 <= k < 8
      ensures !RuleTable(0)[k]
    {
      ShiftZero(k);
    }
  }

  /** Every bit below m of 2^m - 1 is set. */
  lemma {:induction false} AllOnesBits(m: nat, i: nat)
    requires i < m
    ensures Bit(Pow2(m) - 1, i)
  {
    if i > 0 {
      assert (Pow2(m) - 1) / 2 == Pow2(m - 1) - 1;
      AllOnesBits(m - 1, i - 1);
    }
  }

  /** Rule 255 turns every generation into all ones in one step. */
  lemma RuleAllSets(g: seq<int>)
    requires IsBinary(g)
    ensures NextRow(RuleTable(255), g) == seq(|g|, _ => 1)
  {
    forall k | 0 <= k < 8
      ensures RuleTable(255)[k]
    {
      AllOnesBits(8, k);
    }
  }

  // ---------------------------------------------------------------------------
  // The automaton object
  // ---------------------------------------------------------------------------

  class CellularAutomaton {
    var parentGeneration: array<int>
    const childGeneration: array<int>
    const generationSize: nat
    const ruleNumber: int
    const ruleSet: array<bool>

    /** Both buffers have N cells, they are distinct arrays, and the current one holds 0/1 cells. */
    ghost predicate Valid()
      reads this, parentGeneration
    {
      parentGeneration.Length == generationSize &&
      childGeneration.Length == generationSize &&
      ruleSet.Length == 8 &&
      parentGeneration != childGeneration &&
      IsBinary(parentGeneration[..])
    }

    /** The current generation. */
    function Generation(): (g: seq<int>)
      reads this, parentGeneration
    {
      parentGeneration[..]
    }

    /** The rule table. */
    function Rules(): (t: seq<bool>)
      reads ruleSet
    {
      ruleSet[..]
    }

    /** A ring of `size` cells holding a single 1 at index size / 2, under rule `ruleNumber`. */
    constructor (size: nat, ruleNumber: int)
      requires size > 0
      ensures Valid()
      ensures fresh(parentGeneration) && fresh(childGeneration) && fresh(ruleSet)
      ensures generationSize == size && this.ruleNumber == ruleNumber
      ensures Generation() == InitialGeneration(size)
      ensures Rules() == RuleTable(ruleNumber)
    {
      generationSize := size;
      this.ruleNumber := ruleNumber;
      parentGeneration := new int[size](_ => 0);
      childGeneration := new int[size](_ => 0);
      ruleSet := new bool[8];
      new;
      SetRuleSet(ruleNumber);
      for i := 0 to size
        modifies parentGeneration
        invariant forall j :: 0 <= j < i ==> parentGeneration[j] == 0
      {
        parentGeneration[i] := 0;
      }
      parentGeneration[size / 2] := 1;
    }

    /** Fills the table: entry i is bit i of the rule number. */
    method SetRuleSet(ruleNumber: int)
      requires ruleSet.Length == 8
      modifies ruleSet
      ensures Rules() == RuleTable(ruleNumber)
    {
      for i := 0 to 8
        invariant forall k :: 0 <= k < i ==> ruleSet[k] == Bit(ruleNumber, k)
      {
        ruleSet[i] := Bit(ruleNumber, i);
      }
    }

    /**
     * Replaces the generation by a fresh one of N cells loaded from `binary`:
     * longer input is cut, shorter input leaves the remaining cells 0.
     */
    method FromBinaryString(binary: string)
      requires Valid()
      modifies this
      ensures Valid() && fresh(parentGeneration)
      ensures Generation() == FromBinary(binary, generationSize)
    {
      parentGeneration := new int[generationSize](_ => 0);
      var limit := if |binary| < generationSize then |binary| else generationSize;
      for i := 0 to limit
        modifies parentGeneration
        invariant forall j :: 0 <= j < i ==> parentGeneration[j] == FromBinary(binary, generationSize)[j]
        invariant forall j :: i <= j < generationSize ==> parentGeneration[j] == 0
      {
        parentGeneration[i] := if binary[i] == '1' then 1 else 0;
      }
    }

    /** The generation as text, one character per cell. */
    method ToBinaryString() returns (s: string)
      requires Valid()
      ensures s == ToBinary(Generation())
    {
      s := "";
      for i := 0 to parentGeneration.Length
        invariant s == ToBinary(parentGeneration[..i])
      {
        // appending a 0/1 int appends its single decimal digit
        s := s + (if parentGeneration[i] == 1 then "1" else "0");
      }
      assert parentGeneration[..parentGeneration.Length] == parentGeneration[..];
    }

    /**
     * Computes every cell of the next generation into the second buffer from
     * the current one only, then makes a copy of that buffer current.
     */
    method ApplyRule()
      requires Valid()
      modifies this, childGeneration
      ensures Valid() && fresh(parentGeneration)
      ensures Generation() == NextRow(Rules(), old(Generation()))
    {
      ghost var next := NextRow(Rules(), Generation());
      for i := 0 to generationSize
        modifies childGeneration
        invariant forall j :: 0 <= j < i ==> childGeneration[j] == next[j]
      {
        RingNeighbours(i, generationSize);
        var left := if i == 0 then parentGeneration[generationSize - 1] else parentGeneration[i - 1];
        var self := parentGeneration[i];
        var right := if i == generationSize - 1 then parentGeneration[0] else parentGeneration[i + 1];
        // (left << 2) | (self << 1) | right, for cells that are 0 or 1
        var index := 4 * left + 2 * self + right;
        childGeneration[i] := if ruleSet[index] then 1 else 0;
      }
      parentGeneration := new int[generationSize](j requires 0 <= j < generationSize reads childGeneration => childGeneration[j]);
    }

    /** Advances the automaton by one generation. */
    method GenerateNext()
      requires Valid()
      modifies this, childGeneration
      ensures Valid() && fresh(parentGeneration)
      ensures Generation() == NextRow(Rules(), old(Generation()))
    {
      ApplyRule();
    }
  }

  /**
   * Two automata built from the same size, rule number and initial string and
   * stepped the same number of times print the same generation: the one the
   * step function gives after that many steps.
   */
  method Replay(size: nat, ruleNumber: int, initial: string, generations: nat) returns (first: string, second: string)
    requires size > 0
    ensures first == second
    ensures first == ToBinary(Iterate(RuleTable(ruleNumber), FromBinary(initial, size), generations))
  {
    var a := new CellularAutomaton(size, ruleNumber);
    var b := new CellularAutomaton(size, ruleNumber);
    a.FromBinaryString(initial);
    b.FromBinaryString(initial);
    LoadThenPrint(initial, size);
    for k := 0 to generations
      invariant a.Valid() && b.Valid()
      invariant a.Rules() == b.Rules() == RuleTable(ruleNumber)
      invariant a.childGeneration != b.childGeneration && a.parentGeneration != b.parentGeneration
      invariant a.parentGeneration != b.childGeneration && b.parentGeneration != a.childGeneration
      invariant a.Generation() == b.Generation()
      invariant Iterate(RuleTable(ruleNumber), a.Generation(), generations - k)
             == Iterate(RuleTable(ruleNumber), FromBinary(initial, size), generations)
    {
      a.GenerateNext();
      b.GenerateNext();
    }
    first := a.ToBinaryString();
    second := b.ToBinaryString();
  }
}
