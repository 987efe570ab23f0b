/** Decoding one VCDIFF window from its three sections (sections 4.3 and 5 of RFC 3284). */
module VcdiffDecoder {
  import opened Bytes
  import CodeTable
  import Varint
  import AddressCache

  type Cache = AddressCache.Cache

  /** A source segment and the length of the target window. A COPY address below `|source|` lies
      in the source; above it, in the target window. */
  datatype Window = Window(source: seq<byte>, length: nat) {
    predicate Valid() { |source| + length < TWO32 }
  }

  /** A half-instruction with its size and address resolved. */
  datatype Inst = Inst(kind: nat, size: nat, addr: uint32)

  datatype Parsed = Parsed(inst: Inst, cache: Cache, inRest: seq<byte>, addrRest: seq<byte>)

  /** What is left of the sections, what has been written, and the caches. */
  datatype State = State(cache: Cache, out: seq<byte>, inst: seq<byte>, addr: seq<byte>, data: seq<byte>) {
    predicate Valid(w: Window) {
      w.Valid() && cache.Valid() && |out| <= w.length
    }

    /** The same state with more to read in every section. */
    function Fed(i: seq<byte>, a: seq<byte>, d: seq<byte>): State {
      State(cache, out, inst + i, addr + a, data + d)
    }
  }

  predicate Known(kind: nat) {
    kind == CodeTable.ADD || kind == CodeTable.RUN ||
    CodeTable.CPY <= kind < CodeTable.CPY + CodeTable.COPY_MODES
  }

  /** The address may be read from when `pos` bytes of source and target precede it. */
  predicate Readable(w: Window, pos: nat, addr: nat, size: nat) {
    addr < pos && (addr < |w.source| ==> addr + size <= |w.source|)
  }

  /** The opcode's own size, or one read from the instruction section when it has none. */
  function ReadSize(size: nat, inst: seq<byte>): (r: Result<(nat, seq<byte>)>)
    ensures r.Ok? ==> |r.value.1| <= |inst|
  {
    Varint.ReadSuffix(0, inst);
    if size != 0 then Ok((size, inst)) else Varint.Read(inst)
  }

  /** Reads the size, if the opcode left it out, and the address of one half-instruction. */
  function ParseHalf(w: Window, pos: nat, h: CodeTable.Half, cache: Cache, inst: seq<byte>, addr: seq<byte>)
      : (r: Result<Parsed>)
    requires w.Valid() && pos <= |w.source| + w.length && cache.Valid() && Known(h.kind)
    ensures r.Ok? ==>
      && r.value.cache.Valid() && |r.value.inRest| <= |inst| && r.value.inst.kind == h.kind
      && pos + r.value.inst.size <= |w.source| + w.length
      && (h.kind >= CodeTable.CPY ==> Readable(w, pos, r.value.inst.addr, r.value.inst.size))
  {
    var (size, inRest) :- ReadSize(h.size, inst);
    if h.kind < CodeTable.CPY then
      if pos + size > |w.source| + w.length then Invalid
      else Ok(Parsed(Inst(h.kind, size, 0), cache, inRest, addr))
    else
      var (a, addrRest) :- AddressCache.DecodeAddress(cache, pos, h.kind - CodeTable.CPY, addr);
      if !Readable(w, pos, a, size) || pos + size > |w.source| + w.length then Invalid
      else Ok(Parsed(Inst(h.kind, size, a), cache.Used(a), inRest, addrRest))
  }

  /** `n` bytes copied one at a time from `from`, so that a copy may read what it writes. */
  function Extend(out: seq<byte>, from: nat, n: nat): (r: seq<byte>)
    requires from < |out|
    ensures |r| == |out| + n
    decreases n
  {
    if n == 0 then out else Extend(out + [out[from]], from + 1, n - 1)
  }

  function Repeat(b: byte, n: nat): (r: seq<byte>)
    ensures |r| == n && forall k :: 0 <= k < n ==> r[k] == b
  {
    seq(n, _ => b)
  }

  /** The checks made while parsing hold when `written` bytes of target precede the instruction. */
  predicate Performable(w: Window, i: Inst, written: nat) {
    && Known(i.kind)
    && (i.kind >= CodeTable.CPY ==> Readable(w, |w.source| + written, i.addr, i.size))
  }

  /** Performs one half-instruction: the bytes written and the data left. */
  function Output(w: Window, i: Inst, out: seq<byte>, data: seq<byte>): (r: Result<(seq<byte>, seq<byte>)>)
    requires Performable(w, i, |out|)
    ensures r.Ok? ==> |r.value.0| == |out| + i.size
  {
    if i.kind == CodeTable.RUN then
      if data == [] then Invalid else Ok((out + Repeat(data[0], i.size), data[1..]))
    else if i.kind == CodeTable.ADD then
      if |data| < i.size then Invalid else Ok((out + data[..i.size], data[i.size..]))
    else if i.addr < |w.source| then Ok((out + w.source[i.addr..i.addr + i.size], data))
    else Ok((Extend(out, i.addr - |w.source|, i.size), data))
  }

  /** An opcode's instructions, both resolved. */
  datatype Pair = Pair(first: Inst, second: Inst, cache: Cache, inRest: seq<byte>, addrRest: seq<byte>)

  const NOTHING := Inst(CodeTable.NOOP, 0, 0)

  /** Parses both halves of the opcode at the front of `inst`. */
  function ParseBoth(w: Window, pos: nat, cache: Cache, inst: seq<byte>, addr: seq<byte>): (r: Result<Pair>)
    requires w.Valid() && pos <= |w.source| + w.length && cache.Valid() && inst != []
    ensures r.Ok? ==> r.value.cache.Valid() && |r.value.inRest| < |inst|
    ensures r.Ok? && pos >= |w.source| ==>
      && var written := pos - |w.source|;
      && Performable(w, r.value.first, written)
      && (r.value.second == NOTHING || Performable(w, r.value.second, written + r.value.first.size))
      && written + r.value.first.size + r.value.second.size <= w.length
  {
    var op := CodeTable.Meaning(inst[0]);
    var p1 :- ParseHalf(w, pos, CodeTable.Half(op.type1, op.size1), cache, inst[1..], addr);
    if op.type2 == CodeTable.NOOP then Ok(Pair(p1.inst, NOTHING, p1.cache, p1.inRest, p1.addrRest))
    else
      var p2 :- ParseHalf(w, pos + p1.inst.size, CodeTable.Half(op.type2, op.size2),
                          p1.cache, p1.inRest, p1.addrRest);
      Ok(Pair(p1.inst, p2.inst, p2.cache, p2.inRest, p2.addrRest))
  }

  /** Performs one or two instructions. */
  function OutputBoth(w: Window, first: Inst, second: Inst, out: seq<byte>, data: seq<byte>)
      : (r: Result<(seq<byte>, seq<byte>)>)
    requires Performable(w, first, |out|)
    requires second == NOTHING || Performable(w, second, |out| + first.size)
    ensures r.Ok? ==> |r.value.0| == |out| + first.size + second.size
  {
    var (out1, data1) :- Output(w, first, out, data);
    if second == NOTHING then Ok((out1, data1)) else Output(w, second, out1, data1)
  }

  /** One opcode: both halves are parsed, then both are performed. */
  function Step(w: Window, st: State): (r: Result<State>)
    requires st.Valid(w) && st.inst != []
    ensures r.Ok? ==> r.value.Valid(w) && |r.value.inst| < |st.inst|
  {
    var p :- ParseBoth(w, |w.source| + |st.out|, st.cache, st.inst, st.addr);
    var (out, data) :- OutputBoth(w, p.first, p.second, st.out, st.data);
    Ok(State(p.cache, out, p.inRest, p.addrRest, data))
  }

  /** Opcodes until the instruction section is used up. */
  function Run(w: Window, st: State): (r: Result<State>)
    requires st.Valid(w)
    ensures r.Ok? ==> r.value.Valid(w) && r.value.inst == []
    decreases |st.inst|
  {
    if st.inst == [] then Ok(st)
    else
      var next :- Step(w, st);
      Run(w, next)
  }

  /** The instructions that a run performs, one or two an opcode. */
  ghost function Trace(w: Window, st: State): seq<(Inst, Inst)>
    requires st.Valid(w)
    decreases |st.inst|
  {
    if st.inst == [] || Step(w, st).Invalid? then [] else [Head(w, st)] + Trace(w, Step(w, st).value)
  }

  /** The instructions of the next opcode. */
  ghost function Head(w: Window, st: State): (Inst, Inst)
    requires st.Valid(w) && st.inst != [] && Step(w, st).Ok?
  {
    var p := ParseBoth(w, |w.source| + |st.out|, st.cache, st.inst, st.addr).value;
    (p.first, p.second)
  }

  /** The same, one after the other. */
  ghost function Flat(trace: seq<(Inst, Inst)>): seq<Inst> {
    if trace == [] then []
    else
      var last := trace[|trace| - 1];
      Flat(trace[..|trace| - 1]) + if last.1 == NOTHING then [last.0] else [last.0, last.1]
  }

  lemma FlatMore(trace: seq<(Inst, Inst)>, pair: (Inst, Inst))
    ensures Flat(trace + [pair]) == Flat(trace) + if pair.1 == NOTHING then [pair.0] else [pair.0, pair.1]
  {
    assert (trace + [pair])[..|trace|] == trace;
  }

  function Start(inst: seq<byte>, addr: seq<byte>, data: seq<byte>): State {
    State(AddressCache.Empty(), [], inst, addr, data)
  }

  /** The target window that the three sections stand for. It must have the announced length and
      no section may have anything left over. */
  function DecodeWindow(w: Window, inst: seq<byte>, addr: seq<byte>, data: seq<byte>): Result<seq<byte>>
    requires w.Valid()
  {
    var end :- Run(w, Start(inst, addr, data));
    if |end.out| != w.length || end.data != [] || end.addr != [] then Invalid else Ok(end.out)
  }

  // What is already decodable stays decodable when the sections grow.

  lemma ParseHalfFrame(w: Window, pos: nat, h: CodeTable.Half, cache: Cache, inst: seq<byte>, addr: seq<byte>,
                       i: seq<byte>, a: seq<byte>)
    requires w.Valid() && pos <= |w.source| + w.length && cache.Valid() && Known(h.kind)
    requires ParseHalf(w, pos, h, cache, inst, addr).Ok?
    ensures var p := ParseHalf(w, pos, h, cache, inst, addr).value;
      ParseHalf(w, pos, h, cache, inst + i, addr + a)
      == Ok(p.(inRest := p.inRest + i, addrRest := p.addrRest + a))
  {
    if h.size == 0 {
      Varint.ReadFrame(0, inst, i);
    }
    if h.kind >= CodeTable.CPY {
      AddressCache.DecodeAddressFrame(cache, pos, h.kind - CodeTable.CPY, addr, a);
    }
  }

  lemma OutputFrame(w: Window, i: Inst, out: seq<byte>, data: seq<byte>, d: seq<byte>)
    requires Performable(w, i, |out|)
    requires Output(w, i, out, data).Ok?
    ensures Output(w, i, out, data + d)
         == Ok((Output(w, i, out, data).value.0, Output(w, i, out, data).value.1 + d))
  {
    if i.kind == CodeTable.RUN {
      assert (data + d)[1..] == data[1..] + d;
    } else if i.kind == CodeTable.ADD {
      assert (data + d)[..i.size] == data[..i.size];
      assert (data + d)[i.size..] == data[i.size..] + d;
    }
  }

  lemma KnownCodes(code: byte)
    ensures var op := CodeTable.Meaning(code); Known(op.type1) && (op.type2 == CodeTable.NOOP || Known(op.type2))
  {
  }

  lemma ParseBothFrame(w: Window, pos: nat, cache: Cache, inst: seq<byte>, addr: seq<byte>,
                       i: seq<byte>, a: seq<byte>)
    requires w.Valid() && pos <= |w.source| + w.length && cache.Valid() && inst != []
    requires ParseBoth(w, pos, cache, inst, addr).Ok?
    ensures var p := ParseBoth(w, pos, cache, inst, addr).value;
      ParseBoth(w, pos, cache, inst + i, addr + a)
      == Ok(p.(inRest := p.inRest + i, addrRest := p.addrRest + a))
  {
    hide ParseHalf;
    var op := CodeTable.Meaning(inst[0]);
    hide CodeTable.Meaning;
    var h1 := CodeTable.Half(op.type1, op.size1);
    KnownCodes(inst[0]);
    assert (inst + i)[1..] == inst[1..] + i;
    ParseHalfFrame(w, pos, h1, cache, inst[1..], addr, i, a);
    var p1 := ParseHalf(w, pos, h1, cache, inst[1..], addr).value;
    if op.type2 != CodeTable.NOOP {
      ParseHalfFrame(w, pos + p1.inst.size, CodeTable.Half(op.type2, op.size2), p1.cache, p1.inRest, p1.addrRest, i, a);
    }
  }

  lemma OutputBothFrame(w: Window, first: Inst, second: Inst, out: seq<byte>, data: seq<byte>, d: seq<byte>)
    requires Performable(w, first, |out|)
    requires second == NOTHING || Performable(w, second, |out| + first.size)
    requires OutputBoth(w, first, second, out, data).Ok?
    ensures var (o, rest) := OutputBoth(w, first, second, out, data).value;
      OutputBoth(w, first, second, out, data + d) == Ok((o, rest + d))
  {
    OutputFrame(w, first, out, data, d);
    if second != NOTHING {
      var (out1, data1) := Output(w, first, out, data).value;
      OutputFrame(w, second, out1, data1, d);
    }
  }

  lemma StepFrame(w: Window, st: State, i: seq<byte>, a: seq<byte>, d: seq<byte>)
    requires st.Valid(w) && st.inst != [] && Step(w, st).Ok?
    ensures Step(w, st.Fed(i, a, d)) == Ok(Step(w, st).value.Fed(i, a, d))
  {
    hide ParseBoth, OutputBoth;
    var pos := |w.source| + |st.out|;
    ParseBothFrame(w, pos, st.cache, st.inst, st.addr, i, a);
    var p := ParseBoth(w, pos, st.cache, st.inst, st.addr).value;
    OutputBothFrame(w, p.first, p.second, st.out, st.data, d);
    var fed := st.Fed(i, a, d);
    assert ParseBoth(w, pos, fed.cache, fed.inst, fed.addr).value.first == p.first;
  }

  /** Decoding a longer stream passes through the state reached on the shorter one. */
  lemma {:induction false} RunFrame(w: Window, st: State, i: seq<byte>, a: seq<byte>, d: seq<byte>)
    requires st.Valid(w) && Run(w, st).Ok?
    ensures Run(w, st.Fed(i, a, d)) == Run(w, Run(w, st).value.Fed(i, a, d))
    decreases |st.inst|
  {
    if st.inst != [] {
      StepFrame(w, st, i, a, d);
      RunFrame(w, Step(w, st).value, i, a, d);
    }
  }

  /** A window has the length announced, and bytes left over in a section are refused. */
  lemma NothingOver(w: Window, inst: seq<byte>, addr: seq<byte>, data: seq<byte>, a: seq<byte>, d: seq<byte>)
    requires w.Valid() && DecodeWindow(w, inst, addr, data).Ok?
    ensures |DecodeWindow(w, inst, addr, data).value| == w.length
    ensures a != [] || d != [] ==> DecodeWindow(w, inst, addr + a, data + d) == Invalid
  {
    var st := Start(inst, addr, data);
    RunFrame(w, st, [], a, d);
    assert inst + [] == inst;
    var end := Run(w, st).value.Fed([], a, d);
    assert end.inst == [] && end.addr == a && end.data == d;
  }

  /** And performs the same instructions first. */
  lemma {:induction false} TraceFrame(w: Window, st: State, i: seq<byte>, a: seq<byte>, d: seq<byte>)
    requires st.Valid(w) && Run(w, st).Ok?
    ensures Trace(w, st.Fed(i, a, d)) == Trace(w, st) + Trace(w, Run(w, st).value.Fed(i, a, d))
    decreases |st.inst|
  {
    hide Step, Head;
    if st.inst != [] {
      StepFrame(w, st, i, a, d);
      HeadFrame(w, st, i, a, d);
      var next, fed := Step(w, st).value, st.Fed(i, a, d);
      TraceFrame(w, next, i, a, d);
      assert Trace(w, st) == [Head(w, st)] + Trace(w, next);
      assert Trace(w, fed) == [Head(w, st)] + Trace(w, next.Fed(i, a, d));
    }
  }

  lemma HeadFrame(w: Window, st: State, i: seq<byte>, a: seq<byte>, d: seq<byte>)
    requires st.Valid(w) && st.inst != [] && Step(w, st).Ok? && Step(w, st.Fed(i, a, d)).Ok?
    ensures Head(w, st.Fed(i, a, d)) == Head(w, st)
  {
    hide ParseBoth, OutputBoth;
    ParseBothFrame(w, |w.source| + |st.out|, st.cache, st.inst, st.addr, i, a);
  }

  // The caches hold the addresses of the COPYs so far.

  ghost function Copied(i: Inst): seq<uint32> {
    if i.kind >= CodeTable.CPY then [i.addr] else []
  }

  /** The addresses that the COPYs of a run read from, in order. */
  ghost function CopyAddresses(trace: seq<(Inst, Inst)>): seq<uint32> {
    if trace == [] then [] else Copied(trace[0].0) + Copied(trace[0].1) + CopyAddresses(trace[1..])
  }

  lemma HalfCaches(w: Window, pos: nat, h: CodeTable.Half, addrs: seq<uint32>, inst: seq<byte>, addr: seq<byte>)
    requires w.Valid() && pos <= |w.source| + w.length && Known(h.kind)
    requires ParseHalf(w, pos, h, AddressCache.After(addrs), inst, addr).Ok?
    ensures var p := ParseHalf(w, pos, h, AddressCache.After(addrs), inst, addr).value;
      p.cache == AddressCache.After(addrs + Copied(p.inst))
  {
    var p := ParseHalf(w, pos, h, AddressCache.After(addrs), inst, addr).value;
    if h.kind >= CodeTable.CPY {
      assert (addrs + [p.inst.addr])[..|addrs|] == addrs;
    } else {
      assert addrs + [] == addrs;
    }
  }

  lemma StepCaches(w: Window, st: State, addrs: seq<uint32>)
    requires st.Valid(w) && st.inst != [] && Step(w, st).Ok? && st.cache == AddressCache.After(addrs)
    ensures Step(w, st).value.cache == AddressCache.After(addrs + Copied(Head(w, st).0) + Copied(Head(w, st).1))
  {
    hide ParseHalf, OutputBoth, AddressCache.After;
    var pos, op := |w.source| + |st.out|, CodeTable.Meaning(st.inst[0]);
    var h1 := CodeTable.Half(op.type1, op.size1);
    HalfCaches(w, pos, h1, addrs, st.inst[1..], st.addr);
    var p1 := ParseHalf(w, pos, h1, st.cache, st.inst[1..], st.addr).value;
    if op.type2 == CodeTable.NOOP {
      assert addrs + Copied(p1.inst) + [] == addrs + Copied(p1.inst);
    } else {
      HalfCaches(w, pos + p1.inst.size, CodeTable.Half(op.type2, op.size2), addrs + Copied(p1.inst), p1.inRest, p1.addrRest);
    }
  }

  /** After any run the caches are those of the addresses copied from. */
  lemma {:induction false} RunCaches(w: Window, st: State, addrs: seq<uint32>)
    requires st.Valid(w) && Run(w, st).Ok? && st.cache == AddressCache.After(addrs)
    ensures Run(w, st).value.cache == AddressCache.After(addrs + CopyAddresses(Trace(w, st)))
    decreases |st.inst|
  {
    hide Step, Head, AddressCache.After;
    if st.inst == [] {
      assert addrs + [] == addrs;
    } else {
      StepCaches(w, st, addrs);
      var next, used := Step(w, st).value, Copied(Head(w, st).0) + Copied(Head(w, st).1);
      assert addrs + Copied(Head(w, st).0) + Copied(Head(w, st).1) == addrs + used;
      RunCaches(w, next, addrs + used);
      assert Trace(w, st)[1..] == Trace(w, next);
      assert addrs + used + CopyAddresses(Trace(w, next)) == addrs + (used + CopyAddresses(Trace(w, next)));
    }
  }

  /** Byte `k` of what one instruction writes. */
  lemma {:induction false} OutputAt(w: Window, i: Inst, out: seq<byte>, data: seq<byte>, k: nat)
    requires Performable(w, i, |out|) && Output(w, i, out, data).Ok? && k < |out| + i.size
    ensures var r := Output(w, i, out, data).value.0;
      r[k] == if k < |out| then out[k]
              else if i.kind == 1 then data[k - |out|]
              else if i.kind == 2 then data[0]
              else if i.addr < |w.source| then w.source[i.addr + (k - |out|)]
              else r[i.addr - |w.source| + (k - |out|)]
    ensures Output(w, i, out, data).value.1 == if i.kind == 1 then data[i.size..] else if i.kind == 2 then data[1..] else data
  {
    if i.kind >= CodeTable.CPY && i.addr >= |w.source| {
      ExtendAt(out, i.addr - |w.source|, i.size, k);
    }
  }

  lemma {:induction false} ExtendAt(out: seq<byte>, from: nat, n: nat, k: nat)
    requires from < |out| && k < |out| + n
    ensures Extend(out, from, n)[k] == if k < |out| then out[k] else Extend(out, from, n)[from + (k - |out|)]
    decreases n
  {
    if n > 0 {
      var more := out + [out[from]];
      ExtendAt(more, from + 1, n - 1, k);
      if k == |out| {
        ExtendAt(more, from + 1, n - 1, from);
      }
    }
  }

  /** `target` repeats itself: `n` bytes at `pos` equal those at `from`. */
  predicate Repeats(target: seq<byte>, pos: nat, from: nat, n: nat)
    requires from < pos && pos + n <= |target|
  {
    target[pos..pos + n] == target[from..from + n]
  }

  /** Copying from earlier output reproduces a target that repeats itself at that distance, even
      when the two ranges overlap. */
  lemma {:induction false} ExtendRepeats(target: seq<byte>, pos: nat, from: nat, n: nat)
    requires from < pos && pos + n <= |target| && Repeats(target, pos, from, n)
    ensures Extend(target[..pos], from, n) == target[..pos + n]
    decreases n
  {
    if n != 0 {
      assert target[pos] == target[pos..pos + n][0] == target[from..from + n][0];
      assert target[..pos] + [target[from]] == target[..pos + 1];
      assert target[pos + 1..pos + n] == target[pos..pos + n][1..];
      assert target[from + 1..from + n] == target[from..from + n][1..];
      ExtendRepeats(target, pos + 1, from + 1, n - 1);
    }
  }

  /** The decoder as it runs: cursors into the sections, an output buffer filled in place. */
  class Decoder {
    const window: Window
    const table: array<CodeTable.Opcode>
    const caches: AddressCache.Caches
    const target: array<byte>
    var written: nat
    var position: nat
    var inst: seq<byte>
    var addr: seq<byte>
    var data: seq<byte>

    ghost predicate Valid()
      reads this, table, caches, caches.near, caches.same, target
    {
      && window.Valid() && caches.Valid()
      && target.Length == window.length && written <= target.Length
      && table.Length == 256 && (forall c :: 0 <= c < 256 ==> table[c] == CodeTable.Meaning(c))
      && table as object != target && target as object != caches.near && target as object != caches.same
      && table as object != caches.near && table as object != caches.same
    }

    ghost function View(): (st: State)
      requires Valid()
      reads this, table, caches, caches.near, caches.same, target
      ensures st.Valid(window)
    {
      State(caches.View(), target[..written], inst, addr, data)
    }

    constructor (window: Window, inst: seq<byte>, addr: seq<byte>, data: seq<byte>)
      requires window.Valid()
      ensures Valid() && this.window == window && View() == Start(inst, addr, data)
      ensures position == |window.source|
      ensures fresh(table) && fresh(caches) && fresh(caches.near) && fresh(caches.same) && fresh(target)
    {
      this.window := window;
      this.inst, this.addr, this.data := inst, addr, data;
      written, position := 0, |window.source|;
      var t := CodeTable.Build();
      table := t;
      caches := new AddressCache.Caches();
      target := new byte[window.length];
    }

    /** Resolves one half-instruction and moves the position past it. */
    method Parse(h: CodeTable.Half) returns (r: Result<Inst>)
      requires Valid() && position <= |window.source| + window.length && Known(h.kind)
      modifies this, caches, caches.near, caches.same
      ensures Valid() && written == old(written) && data == old(data)
      ensures var p := ParseHalf(window, old(position), h, old(caches.View()), old(inst), old(addr));
        && r.Ok? == p.Ok?
        && (r.Ok? ==>
              && r.value == p.value.inst && caches.View() == p.value.cache
              && inst == p.value.inRest && addr == p.value.addrRest
              && position == old(position) + r.value.size)
    {
      var size := h.size;
      if size == 0 {
        var q := Varint.Scan(inst);
        if q.Invalid? {
          return Invalid;
        }
        size, inst := q.value.0, q.value.1;
      }
      var address := 0;
      if h.kind >= CodeTable.CPY {
        var a := caches.Decode(position, h.kind - CodeTable.CPY, addr);
        if a.Invalid? {
          return Invalid;
        }
        address, addr := a.value.0, a.value.1;
        if address >= position {
          return Invalid;
        }
        if address < |window.source| && address + size > |window.source| {
          return Invalid;
        }
      }
      if position + size > |window.source| + window.length {
        return Invalid;
      }
      position := position + size;
      r := Ok(Inst(h.kind, size, address));
    }

    /** Writes the bytes of one half-instruction after those already written. */
    method Perform(i: Inst) returns (ok: bool)
      requires Valid() && Performable(window, i, written) && written + i.size <= window.length
      modifies this`written, this`data, target
      ensures Valid()
      ensures var q := Output(window, i, old(target[..written]), old(data));
        ok == q.Ok? && (ok ==> target[..written] == q.value.0 && data == q.value.1)
      ensures written == old(written) + if ok then i.size else 0
    {
      ghost var out, d := target[..written], data;
      var start := written;
      if i.kind == CodeTable.RUN {
        if data == [] {
          return false;
        }
        forall k | 0 <= k < i.size {
          target[start + k] := data[0];
        }
        data, written := data[1..], start + i.size;
        assert target[..written] == out + Repeat(d[0], i.size);
      } else if i.kind == CodeTable.ADD {
        if |data| < i.size {
          return false;
        }
        forall k | 0 <= k < i.size {
          target[start + k] := data[k];
        }
        data, written := data[i.size..], start + i.size;
        assert target[..written] == out + d[..i.size];
      } else {
        if i.addr < |window.source| {
          forall k | 0 <= k < i.size {
            target[start + k] := window.source[i.addr + k];
          }
          assert target[..start + i.size] == out + window.source[i.addr..i.addr + i.size];
        } else {
          CopyForward(i.addr - |window.source|, start, i.size);
        }
        written := start + i.size;
      }
      ok := true;
    }

    /** Byte by byte, because the ranges may overlap. */
    method CopyForward(from: nat, to: nat, n: nat)
      requires from < to && to + n <= target.Length
      modifies target
      ensures target[..to + n] == Extend(old(target[..to]), from, n)
    {
      assert target[..to] == old(target[..to]);
      for k := 0 to n
        invariant Extend(target[..to + k], from + k, n - k) == Extend(old(target[..to]), from, n)
      {
        ghost var before := target[..to + k];
        target[to + k] := target[from + k];
        assert target[..to + k + 1] == before + [before[from + k]];
      }
    }

    /** Decodes opcodes until the instruction section is empty, then checks that the output has
        the right length and that nothing is left over. */
    method Decode() returns (r: Result<seq<byte>>)
      requires Valid() && position == |window.source| && written == 0
      modifies this, caches, caches.near, caches.same, target
      ensures var end := Run(window, old(View()));
        r == if end.Ok? && |end.value.out| == window.length && end.value.data == [] && end.value.addr == []
             then Ok(end.value.out) else Invalid
    {
      while inst != []
        invariant Valid() && position == |window.source| + written
        invariant Run(window, View()) == Run(window, old(View()))
        decreases |inst|
      {
        var ok := Advance();
        if !ok {
          return Invalid;
        }
      }
      if written != window.length || data != [] || addr != [] {
        return Invalid;
      }
      r := Ok(target[..]);
      assert target[..] == target[..written];
    }

    /** Resolves both halves of the next opcode. */
    method ParseOpcode() returns (r: Result<(Inst, Inst)>)
      requires Valid() && position == |window.source| + written && inst != []
      modifies this, caches, caches.near, caches.same
      ensures Valid() && written == old(written) && data == old(data)
      ensures var p := ParseBoth(window, old(position), old(caches.View()), old(inst), old(addr));
        && r.Ok? == p.Ok?
        && (r.Ok? ==>
              && p.value == Pair(r.value.0, r.value.1, caches.View(), inst, addr)
              && position == old(position) + r.value.0.size + r.value.1.size)
    {
      hide ParseHalf;
      var op := table[inst[0]];
      inst := inst[1..];
      var first := Parse(CodeTable.Half(op.type1, op.size1));
      if first.Invalid? {
        return Invalid;
      }
      var second := Ok(NOTHING);
      if op.type2 != CodeTable.NOOP {
        second := Parse(CodeTable.Half(op.type2, op.size2));
        if second.Invalid? {
          return Invalid;
        }
      }
      r := Ok((first.value, second.value));
    }

    /** Performs one or two instructions. */
    method PerformBoth(first: Inst, second: Inst) returns (ok: bool)
      requires Valid() && Performable(window, first, written)
      requires second == NOTHING || Performable(window, second, written + first.size)
      requires written + first.size + second.size <= window.length
      modifies this`written, this`data, target
      ensures Valid()
      ensures var q := OutputBoth(window, first, second, old(target[..written]), old(data));
        && ok == q.Ok?
        && (ok ==> target[..written] == q.value.0 && data == q.value.1
                   && written == old(written) + first.size + second.size)
    {
      hide Output;
      ok := Perform(first);
      if ok && second != NOTHING {
        ok := Perform(second);
      }
    }

    /** One opcode. */
    method Advance() returns (ok: bool)
      requires Valid() && position == |window.source| + written && inst != []
      modifies this, caches, caches.near, caches.same, target
      ensures Valid()
      ensures var step := Step(window, old(View()));
        ok == step.Ok? && (ok ==> View() == step.value && position == |window.source| + written)
    {
      hide ParseBoth, OutputBoth;
      var pair := ParseOpcode();
      if pair.Invalid? {
        return false;
      }
      ok := PerformBoth(pair.value.0, pair.value.1);
    }
  }

  /** The decoder computes `DecodeWindow`. */
  method DecodeSections(w: Window, inst: seq<byte>, addr: seq<byte>, data: seq<byte>)
      returns (r: Result<seq<byte>>)
    requires w.Valid()
    ensures r == DecodeWindow(w, inst, addr, data)
  {
    var decoder := new Decoder(w, inst, addr, data);
    r := decoder.Decode();
  }
}
