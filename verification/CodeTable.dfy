/** The default instruction code table (section 5.6 of RFC 3284) and the choice of opcodes. */
module CodeTable {
  import opened Bytes

  /** Instruction types: a COPY is `CPY` plus its address mode. */
  const NOOP := 0
  const ADD := 1
  const RUN := 2
  const CPY := 3

  const NEAR_MODES := 4
  const COPY_MODES := 9

  /** One opcode: two half-instructions. A size of zero is sent separately. */
  datatype Opcode = Opcode(type1: nat, size1: nat, type2: nat, size2: nat)

  const BLANK := Opcode(NOOP, 0, NOOP, 0)

  /** One instruction as it reaches the code table. */
  datatype Half = Half(kind: nat, size: nat)

  /** What each opcode means, by the ranges of the standard's table. */
  function Meaning(code: nat): Opcode
    requires code < 256
  {
    if code == 0 then Opcode(RUN, 0, NOOP, 0)
    else if code <= 18 then Opcode(ADD, code - 1, NOOP, 0)
    else if code <= 162 then
      var mode, index := (code - 19) / 16, (code - 19) % 16;
      Opcode(CPY + mode, if index == 0 then 0 else index + 3, NOOP, 0)
    else if code <= 234 then
      var mode, index := (code - 163) / 12, (code - 163) % 12;
      Opcode(ADD, 1 + index / 3, CPY + mode, 4 + index % 3)
    else if code <= 246 then
      var mode, index := 6 + (code - 235) / 4, (code - 235) % 4;
      Opcode(ADD, 1 + index, CPY + mode, 4)
    else Opcode(CPY + (code - 247), 4, ADD, 1)
  }

  lemma MeaningCopy(mode: nat, index: nat)
    requires mode < COPY_MODES && index < 16
    ensures Meaning(19 + 16 * mode + index)
         == Opcode(CPY + mode, if index == 0 then 0 else index + 3, NOOP, 0)
  {
    assert (16 * mode + index) / 16 == mode;
  }

  lemma MeaningAddCopy(mode: nat, add: nat, copy: nat)
    requires mode < 6 && 1 <= add <= 4 && 4 <= copy <= 6
    ensures Meaning(163 + 12 * mode + 3 * (add - 1) + (copy - 4)) == Opcode(ADD, add, CPY + mode, copy)
  {
    var index := 3 * (add - 1) + (copy - 4);
    assert (12 * mode + index) / 12 == mode;
    assert index / 3 == add - 1;
  }

  lemma MeaningAddSame(mode: nat, add: nat)
    requires 6 <= mode < COPY_MODES && 1 <= add <= 4
    ensures Meaning(235 + 4 * (mode - 6) + (add - 1)) == Opcode(ADD, add, CPY + mode, 4)
  {
    assert (4 * (mode - 6) + (add - 1)) / 4 == mode - 6;
  }

  /** The rest of the table in numbers: 0 is no instruction, 1 is ADD, 2 is RUN and 3 to 11 are COPY. */
  lemma MeaningRest(size: nat, mode: nat)
    requires 1 <= size <= 17 && mode < 9
    ensures Meaning(0) == Opcode(2, 0, 0, 0) && Meaning(1) == Opcode(1, 0, 0, 0)
    ensures Meaning(1 + size) == Opcode(1, size, 0, 0) && Meaning(247 + mode) == Opcode(3 + mode, 4, 1, 1)
  {
  }

  /** Everything below `d` is laid out and everything from `d` on is blank. */
  ghost predicate LaidOut(table: array<Opcode>, d: nat)
    reads table
  {
    && table.Length == 256 && d <= 256
    && (forall c :: 0 <= c < d ==> table[c] == Meaning(c))
    && (forall c :: d <= c < 256 ==> table[c] == BLANK)
  }

  method LayAdds(table: array<Opcode>, start: nat) returns (d: nat)
    requires start == 2 && LaidOut(table, start)
    modifies table
    ensures d == 19 && LaidOut(table, d)
  {
    d := start;
    for size1 := 1 to 18
      invariant d == 1 + size1 && LaidOut(table, d)
    {
      table[d], d := table[d].(type1 := ADD, size1 := size1), d + 1;
    }
  }

  method LayCopies(table: array<Opcode>, start: nat) returns (d: nat)
    requires start == 19 && LaidOut(table, start)
    modifies table
    ensures d == 163 && LaidOut(table, d)
  {
    d := start;
    for mode := 0 to COPY_MODES
      invariant d == 19 + 16 * mode && LaidOut(table, d)
    {
      MeaningCopy(mode, 0);
      table[d], d := table[d].(type1 := CPY + mode), d + 1;
      for size1 := MIN_MATCH to MIN_MATCH + 15
        invariant d == 19 + 16 * mode + (size1 - 3) && LaidOut(table, d)
      {
        MeaningCopy(mode, size1 - 3);
        table[d], d := table[d].(type1 := CPY + mode, size1 := size1), d + 1;
      }
    }
  }

  /** Where the ADD-COPY opcodes of `mode` with an ADD of `add` bytes begin. */
  function AddCopyBase(mode: nat, add: nat): int {
    if mode < 6 then 163 + 12 * mode + 3 * (add - 1) else 235 + 4 * (mode - 6) + (add - 1)
  }

  method Lay(table: array<Opcode>, d: nat, op: Opcode)
    requires LaidOut(table, d) && d < 256 && op == Meaning(d)
    modifies table
    ensures LaidOut(table, d + 1)
  {
    hide Meaning;
    table[d] := op;
  }

  method LayAddCopies(table: array<Opcode>, start: nat) returns (d: nat)
    requires start == 163 && LaidOut(table, start)
    modifies table
    ensures d == 247 && LaidOut(table, d)
  {
    hide LaidOut, Meaning;
    d := start;
    for mode := 0 to COPY_MODES
      invariant d == AddCopyBase(mode, 1) && LaidOut(table, d)
    {
      var max := if mode < 2 + NEAR_MODES then 6 else 4;
      for size1 := 1 to 5
        invariant d == AddCopyBase(mode, size1) && LaidOut(table, d)
      {
        for size2 := MIN_MATCH to max + 1
          invariant d == AddCopyBase(mode, size1) + (size2 - MIN_MATCH) && LaidOut(table, d)
        {
          if mode < 6 {
            MeaningAddCopy(mode, size1, size2);
          } else {
            MeaningAddSame(mode, size1);
          }
          Lay(table, d, Opcode(ADD, size1, CPY + mode, size2));
          d := d + 1;
        }
      }
    }
  }

  method LayCopyAdds(table: array<Opcode>, start: nat) returns (d: nat)
    requires start == 247 && LaidOut(table, start)
    modifies table
    ensures d == 256 && LaidOut(table, d)
  {
    d := start;
    for mode := 0 to COPY_MODES
      invariant d == 247 + mode && LaidOut(table, d)
    {
      for size1 := MIN_MATCH to 5
        invariant d == 247 + mode + (size1 - MIN_MATCH) && LaidOut(table, d)
      {
        for size2 := 1 to 2
          invariant d == 247 + mode + (size1 - MIN_MATCH) + (size2 - 1) && LaidOut(table, d)
        {
          table[d], d := Opcode(CPY + mode, size1, ADD, size2), d + 1;
        }
      }
    }
  }

  /** The table is laid out by nested loops that advance one write position. */
  method Build() returns (table: array<Opcode>)
    ensures table.Length == 256 && fresh(table)
    ensures forall c :: 0 <= c < 256 ==> table[c] == Meaning(c)
  {
    table := new Opcode[256](_ => BLANK);
    table[0] := BLANK.(type1 := RUN);
    table[1] := BLANK.(type1 := ADD);
    var d := LayAdds(table, 2);
    d := LayCopies(table, d);
    d := LayAddCopies(table, d);
    d := LayCopyAdds(table, d);
  }

  /** An instruction the encoder can produce. */
  predicate Encodable(h: Half) {
    && h.size > 0
    && (h.kind == ADD || h.kind == RUN || (CPY <= h.kind < CPY + COPY_MODES && h.size >= MIN_MATCH))
  }

  /** The opcode for an instruction standing alone. */
  function SingleCode(h: Half): (code: nat)
    requires Encodable(h)
    ensures code < 256
  {
    if h.kind == RUN then 0
    else if h.kind == ADD then if h.size <= 17 then 1 + h.size else 1
    else
      var base := 19 + 16 * (h.kind - CPY);
      if h.size <= 18 then base + h.size - 3 else base
  }

  /** It means that instruction, with the size either its own or left to be sent after it. */
  lemma SingleCodeMeans(h: Half)
    requires Encodable(h)
    ensures var op := Meaning(SingleCode(h));
      op.type1 == h.kind && op.type2 == NOOP && op.size1 in {0, h.size}
  {
    if h.kind >= CPY {
      MeaningCopy(h.kind - CPY, if h.size <= 18 then h.size - 3 else 0);
    }
  }

  /** The size is never sent apart without need: an opcode that means the instruction alone with its
      size is the one chosen. */
  lemma SingleCodeComplete(h: Half, code: nat)
    requires Encodable(h) && code < 256 && Meaning(code) == Opcode(h.kind, h.size, NOOP, 0)
    ensures SingleCode(h) == code
  {
    if 19 <= code <= 162 {
      var mode, index := (code - 19) / 16, (code - 19) % 16;
      assert code == 19 + 16 * mode + index;
    }
  }

  /** The opcode for two instructions together, or zero when the table has none. */
  function DoubleCode(prev: Half, h: Half): (code: nat)
    requires Encodable(prev) && Encodable(h)
    ensures code < 256
  {
    if h.kind == RUN then 0
    else if h.kind == ADD then
      if h.size == 1 && prev.size == 4 && prev.kind >= CPY then 247 + (prev.kind - CPY) else 0
    else
      var mode := h.kind - CPY;
      if h.size <= 18 && prev.kind == ADD && prev.size <= 4 then
        if h.size <= 6 && mode <= 5 then 163 + mode * 12 + 3 * (prev.size - 1) + (h.size - 4)
        else if h.size == 4 && mode >= 6 then 235 + (mode - 6) * 4 + (prev.size - 1)
        else 0
      else 0
  }

  /** A pairing opcode means exactly the pair, both sizes included. */
  lemma DoubleCodeMeans(prev: Half, h: Half)
    requires Encodable(prev) && Encodable(h) && DoubleCode(prev, h) != 0
    ensures Meaning(DoubleCode(prev, h)) == Opcode(prev.kind, prev.size, h.kind, h.size)
  {
    if h.kind >= CPY {
      if h.kind - CPY < 6 {
        MeaningAddCopy(h.kind - CPY, prev.size, h.size);
      } else {
        MeaningAddSame(h.kind - CPY, prev.size);
      }
    }
  }

  /** Pairing is never missed: an opcode that means the pair is the one chosen. */
  lemma DoubleCodeComplete(prev: Half, h: Half, code: nat)
    requires Encodable(prev) && Encodable(h) && code < 256
    requires Meaning(code) == Opcode(prev.kind, prev.size, h.kind, h.size)
    ensures DoubleCode(prev, h) == code
  {
    if 163 <= code <= 234 {
      var mode, index := (code - 163) / 12, (code - 163) % 12;
      assert mode <= 5 && index / 3 <= 3;
    } else if 235 <= code <= 246 {
      assert (code - 235) / 4 <= 2;
    }
  }
}
