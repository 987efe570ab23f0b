/** Encoding one VCDIFF window from a list of matches: gaps become ADDs, addresses go through the
    caches, and each opcode is held back one instruction in case it can be paired. */
module VcdiffEncoder {
  import opened Bytes
  import opened Matches
  import CodeTable
  import Varint
  import AddressCache
  import VcdiffDecoder

  type Half = CodeTable.Half
  type Cache = AddressCache.Cache
  type Window = VcdiffDecoder.Window
  type Inst = VcdiffDecoder.Inst

  /** The bytes of an instruction sent alone: its opcode, and its size if the opcode has none. */
  function SingleBytes(h: Half): seq<byte>
    requires CodeTable.Encodable(h)
  {
    var code := CodeTable.SingleCode(h);
    [code] + if CodeTable.Meaning(code).size1 == 0 then Varint.Encode(h.size) else []
  }

  /** With `cache`, and `target[..pos]` already written, the half-instruction with address bytes
      `ia` and data bytes `id` is read as `i`, writes `target[pos..pos + h.size]` and leaves `after`. */
  ghost predicate Denotes(w: Window, target: seq<byte>, pos: nat, h: Half, cache: Cache,
                          ia: seq<byte>, id: seq<byte>, i: Inst, after: Cache)
  {
    && w.Valid() && w.length == |target| && cache.Valid()
    && CodeTable.Encodable(h) && h.size < TWO32 && pos + h.size <= |target|
    && var p := VcdiffDecoder.ParseHalf(w, |w.source| + pos, h, cache, [], ia);
    && p.Ok? && p.value == VcdiffDecoder.Parsed(i, after, [], []) && i.size == h.size
    && VcdiffDecoder.Output(w, i, target[..pos], id) == Ok((target[..pos + h.size], []))
  }

  /** The sections decode to `target[..pos]` by the instructions of `trace`, nothing is left over, and
      the caches are `cache`. */
  ghost predicate DecodesTo(w: Window, target: seq<byte>, inst: seq<byte>, addr: seq<byte>, data: seq<byte>,
                            pos: nat, cache: Cache, trace: seq<(Inst, Inst)>)
  {
    && w.Valid() && w.length == |target| && pos <= |target|
    && VcdiffDecoder.Run(w, VcdiffDecoder.Start(inst, addr, data))
       == Ok(VcdiffDecoder.State(cache, target[..pos], [], [], []))
    && VcdiffDecoder.Trace(w, VcdiffDecoder.Start(inst, addr, data)) == trace
  }

  // What is sent

  /** The instruction is the match: its kind, its size, and where it copies from. */
  ghost predicate Realizes(w: Window, i: Inst, m: Match) {
    && i.size == m.size
    && match m.kind
       case Copy(_, _) => CodeTable.CPY <= i.kind && i.addr == Address(w, m)
       case Run(_) => i.kind == CodeTable.RUN
       case Add => i.kind == CodeTable.ADD
  }

  ghost predicate Follows(w: Window, insts: seq<Inst>, plan: seq<Match>) {
    |insts| == |plan| && forall k :: 0 <= k < |insts| ==> Realizes(w, insts[k], plan[k])
  }

  lemma FollowsMore(w: Window, insts: seq<Inst>, plan: seq<Match>, i: Inst, m: Match)
    requires Follows(w, insts, plan) && Realizes(w, i, m)
    ensures Follows(w, insts + [i], plan + [m])
  {
  }

  /** No opcode of the table means the two instructions together. */
  ghost predicate Unpaired(i: Inst, j: Inst) {
    forall code :: 0 <= code < 256 ==> CodeTable.Meaning(code) != CodeTable.Opcode(i.kind, i.size, j.kind, j.size)
  }

  lemma NoDouble(i: Inst, j: Inst)
    requires var h1, h2 := CodeTable.Half(i.kind, i.size), CodeTable.Half(j.kind, j.size);
      CodeTable.Encodable(h1) && CodeTable.Encodable(h2) && CodeTable.DoubleCode(h1, h2) == 0
    ensures Unpaired(i, j)
  {
    hide CodeTable.DoubleCode;
    forall code | 0 <= code < 256
      ensures CodeTable.Meaning(code) != CodeTable.Opcode(i.kind, i.size, j.kind, j.size)
    {
      if CodeTable.Meaning(code) == CodeTable.Opcode(i.kind, i.size, j.kind, j.size) {
        CodeTable.DoubleCodeComplete(CodeTable.Half(i.kind, i.size), CodeTable.Half(j.kind, j.size), code);
      }
    }
  }

  /** An instruction sent alone could not have been sent with the next. */
  ghost predicate Tight(trace: seq<(Inst, Inst)>) {
    forall k :: 0 <= k && k + 1 < |trace| && trace[k].1 == VcdiffDecoder.NOTHING ==> Unpaired(trace[k].0, trace[k + 1].0)
  }

  /** The same goes for the last one and an instruction to come. */
  ghost predicate TightBefore(trace: seq<(Inst, Inst)>, i: Inst) {
    trace != [] && trace[|trace| - 1].1 == VcdiffDecoder.NOTHING ==> Unpaired(trace[|trace| - 1].0, i)
  }

  lemma TightMore(trace: seq<(Inst, Inst)>, i: Inst, j: Inst)
    requires Tight(trace) && TightBefore(trace, i)
    ensures Tight(trace + [(i, j)])
  {
    hide Unpaired;
    var more := trace + [(i, j)];
    forall k | 0 <= k && k + 1 < |more| && more[k].1 == VcdiffDecoder.NOTHING
      ensures Unpaired(more[k].0, more[k + 1].0)
    {
      if k + 1 == |trace| {
        assert more[k] == trace[|trace| - 1];
      } else {
        assert more[k] == trace[k] && more[k + 1] == trace[k + 1];
      }
    }
  }

  lemma PairSent(w: Window, trace: seq<(Inst, Inst)>, i: Inst, j: Inst, plan: seq<Match>)
    requires Tight(trace) && TightBefore(trace, i) && Follows(w, VcdiffDecoder.Flat(trace) + [i] + [j], plan) && j.kind != CodeTable.NOOP
    ensures Tight(trace + [(i, j)]) && Follows(w, VcdiffDecoder.Flat(trace + [(i, j)]), plan) && j != VcdiffDecoder.NOTHING
  {
    hide Tight, Follows, VcdiffDecoder.Flat;
    TightMore(trace, i, j);
    VcdiffDecoder.FlatMore(trace, (i, j));
    assert VcdiffDecoder.Flat(trace) + [i] + [j] == VcdiffDecoder.Flat(trace) + [i, j];
  }

  lemma OneSent(w: Window, trace: seq<(Inst, Inst)>, i: Inst, rest: seq<Inst>, plan: seq<Match>)
    requires Tight(trace) && TightBefore(trace, i) && Follows(w, VcdiffDecoder.Flat(trace) + [i] + rest, plan)
    ensures var now := trace + [(i, VcdiffDecoder.NOTHING)]; Tight(now) && Follows(w, VcdiffDecoder.Flat(now) + rest, plan)
  {
    hide Tight, Follows, VcdiffDecoder.Flat;
    TightMore(trace, i, VcdiffDecoder.NOTHING);
    VcdiffDecoder.FlatMore(trace, (i, VcdiffDecoder.NOTHING));
  }

  lemma LastSent(trace: seq<(Inst, Inst)>, i: Inst, j: Inst)
    requires Unpaired(i, j)
    ensures TightBefore(trace + [(i, VcdiffDecoder.NOTHING)], j)
  {
  }

  lemma NothingSent(trace: seq<(Inst, Inst)>, i: Inst)
    requires trace != [] ==> trace[|trace| - 1].1 != VcdiffDecoder.NOTHING
    ensures TightBefore(trace, i)
  {
  }

  ghost function Gap(from: nat, to: nat): seq<Match> {
    if from < to then [Match(Add, from, to - from)] else []
  }

  ghost function Reached(list: seq<Match>): nat {
    if list == [] then 0 else list[|list| - 1].End()
  }

  /** The matches, with an ADD for every gap before and between them. */
  ghost function Filled(list: seq<Match>): seq<Match> {
    if list == [] then []
    else
      var before, m := list[..|list| - 1], list[|list| - 1];
      Filled(before) + Gap(Reached(before), m.pos) + [m]
  }

  /** And one for the rest of the window. */
  ghost function Plan(list: seq<Match>, length: nat): seq<Match> {
    Filled(list) + Gap(Reached(list), length)
  }

  /** A size sent after the opcode is read as if the opcode carried it. */
  lemma SizeSent(w: Window, pos: nat, h: Half, cache: Cache, ia: seq<byte>)
    requires w.Valid() && pos <= |w.source| + w.length && cache.Valid()
    requires CodeTable.Encodable(h) && h.size < TWO32
    ensures VcdiffDecoder.ParseHalf(w, pos, h.(size := 0), cache, Varint.Encode(h.size), ia)
         == VcdiffDecoder.ParseHalf(w, pos, h, cache, [], ia)
  {
    hide AddressCache.DecodeAddress;
    Varint.RoundTrip(h.size, []);
    assert Varint.Encode(h.size) + [] == Varint.Encode(h.size);
  }

  /** Emitting an instruction alone extends what the sections decode to by that instruction. */
  lemma SingleExtends(w: Window, target: seq<byte>, inst: seq<byte>, addr: seq<byte>, data: seq<byte>,
                      pos: nat, cache: Cache, trace: seq<(Inst, Inst)>,
                      h: Half, ia: seq<byte>, id: seq<byte>, i: Inst, after: Cache)
    requires DecodesTo(w, target, inst, addr, data, pos, cache, trace)
    requires Denotes(w, target, pos, h, cache, ia, id, i, after)
    ensures DecodesTo(w, target, inst + SingleBytes(h), addr + ia, data + id, pos + h.size, after,
                      trace + [(i, VcdiffDecoder.NOTHING)])
  {
    hide VcdiffDecoder.ParseHalf, VcdiffDecoder.Output, VcdiffDecoder.Run, VcdiffDecoder.Trace, CodeTable.Meaning, CodeTable.SingleCode;
    var bytes, here := SingleBytes(h), |w.source| + pos;
    VcdiffDecoder.RunFrame(w, VcdiffDecoder.Start(inst, addr, data), bytes, ia, id);
    VcdiffDecoder.TraceFrame(w, VcdiffDecoder.Start(inst, addr, data), bytes, ia, id);
    var st := VcdiffDecoder.State(cache, target[..pos], bytes, ia, id);
    assert VcdiffDecoder.State(cache, target[..pos], [], [], []).Fed(bytes, ia, id) == st;
    CodeTable.SingleCodeMeans(h);
    SizeSent(w, here, h, cache, ia);
    var op := CodeTable.Meaning(bytes[0]);
    assert bytes[1..] == if op.size1 == 0 then Varint.Encode(h.size) else [];
    assert CodeTable.Half(op.type1, op.size1) == if op.size1 == 0 then h.(size := 0) else h;
    var p := VcdiffDecoder.ParseHalf(w, here, h, cache, [], ia).value;
    assert VcdiffDecoder.ParseBoth(w, here, cache, bytes, ia)
        == Ok(VcdiffDecoder.Pair(p.inst, VcdiffDecoder.NOTHING, after, [], []));
    RunOne(w, st);
  }

  /** So does emitting two instructions under one opcode. */
  lemma DoubleExtends(w: Window, target: seq<byte>, inst: seq<byte>, addr: seq<byte>, data: seq<byte>,
                      pos: nat, cache: Cache, trace: seq<(Inst, Inst)>,
                      h1: Half, ia1: seq<byte>, id1: seq<byte>, i1: Inst, middle: Cache,
                      h2: Half, ia2: seq<byte>, id2: seq<byte>, i2: Inst, after: Cache)
    requires DecodesTo(w, target, inst, addr, data, pos, cache, trace)
    requires Denotes(w, target, pos, h1, cache, ia1, id1, i1, middle)
    requires Denotes(w, target, pos + h1.size, h2, middle, ia2, id2, i2, after)
    requires CodeTable.DoubleCode(h1, h2) != 0
    ensures DecodesTo(w, target, inst + [CodeTable.DoubleCode(h1, h2)], addr + ia1 + ia2, data + id1 + id2,
                      pos + h1.size + h2.size, after, trace + [(i1, i2)])
  {
    hide VcdiffDecoder.ParseHalf, VcdiffDecoder.Output, VcdiffDecoder.Run, VcdiffDecoder.Trace;
    var code: byte := CodeTable.DoubleCode(h1, h2);
    var here := |w.source| + pos;
    var start := VcdiffDecoder.Start(inst, addr, data);
    VcdiffDecoder.RunFrame(w, start, [code], ia1 + ia2, id1 + id2);
    VcdiffDecoder.TraceFrame(w, start, [code], ia1 + ia2, id1 + id2);
    assert addr + (ia1 + ia2) == addr + ia1 + ia2 && data + (id1 + id2) == data + id1 + id2;
    var st := VcdiffDecoder.State(cache, target[..pos], [code], ia1 + ia2, id1 + id2);
    assert VcdiffDecoder.State(cache, target[..pos], [], [], []).Fed([code], ia1 + ia2, id1 + id2) == st;
    CodeTable.DoubleCodeMeans(h1, h2);
    var p1 := VcdiffDecoder.ParseHalf(w, here, h1, cache, [], ia1).value;
    var p2 := VcdiffDecoder.ParseHalf(w, here + h1.size, h2, middle, [], ia2).value;
    VcdiffDecoder.ParseHalfFrame(w, here, h1, cache, [], ia1, [], ia2);
    var none: seq<byte> := [];
    assert [code][1..] == none && none + none == none && none + ia2 == ia2;
    assert VcdiffDecoder.ParseBoth(w, here, cache, [code], ia1 + ia2)
        == Ok(VcdiffDecoder.Pair(p1.inst, p2.inst, after, [], []));
    VcdiffDecoder.OutputFrame(w, p1.inst, target[..pos], id1, id2);
    assert none + id2 == id2;
    RunOne(w, st);
  }

  lemma DenotedHalf(w: Window, target: seq<byte>, pos: nat, h: Half, cache: Cache, ia: seq<byte>, id: seq<byte>, i: Inst, after: Cache)
    requires Denotes(w, target, pos, h, cache, ia, id, i, after)
    ensures CodeTable.Encodable(h) && h.size < TWO32 && i.size == h.size
  {
  }

  lemma RunOne(w: Window, st: VcdiffDecoder.State)
    requires st.Valid(w) && st.inst != []
    requires VcdiffDecoder.Step(w, st).Ok? && VcdiffDecoder.Step(w, st).value.inst == []
    ensures VcdiffDecoder.Run(w, st) == VcdiffDecoder.Step(w, st) && VcdiffDecoder.Trace(w, st) == [VcdiffDecoder.Head(w, st)]
  {
    hide VcdiffDecoder.Step, VcdiffDecoder.Head;
  }

  // Each kind of instruction denotes the bytes it covers.

  lemma CopyDenotes(w: Window, target: seq<byte>, m: Match, cache: Cache, mode: nat, bytes: seq<byte>)
    requires w.Valid() && w.length == |target| && cache.Valid()
    requires m.kind.Copy? && m.size >= MIN_MATCH && Correct(w.source, target, m)
    requires mode < CodeTable.COPY_MODES
    requires AddressCache.DecodeAddress(cache, |w.source| + m.pos, mode, bytes) == Ok((Address(w, m), []))
    ensures Denotes(w, target, m.pos, CodeTable.Half(CodeTable.CPY + mode, m.size), cache, bytes, [],
                    VcdiffDecoder.Inst(CodeTable.CPY + mode, m.size, Address(w, m)), cache.Used(Address(w, m)))
  {
    hide AddressCache.DecodeAddress;
    var h := CodeTable.Half(CodeTable.CPY + mode, m.size);
    var i := VcdiffDecoder.Inst(h.kind, h.size, Address(w, m));
    assert VcdiffDecoder.ParseHalf(w, |w.source| + m.pos, h, cache, [], bytes)
        == Ok(VcdiffDecoder.Parsed(i, cache.Used(i.addr), [], []));
    if m.kind.fromSource {
      assert target[..m.pos] + target[m.pos..m.End()] == target[..m.End()];
    } else {
      VcdiffDecoder.ExtendRepeats(target, m.pos, m.kind.addr, m.size);
    }
  }

  lemma RunDenotes(w: Window, target: seq<byte>, m: Match, cache: Cache)
    requires w.Valid() && w.length == |target| && cache.Valid()
    requires m.kind.Run? && m.size > 0 && Correct(w.source, target, m)
    ensures Denotes(w, target, m.pos, CodeTable.Half(CodeTable.RUN, m.size), cache, [], [m.kind.b],
                    VcdiffDecoder.Inst(CodeTable.RUN, m.size, 0), cache)
  {
    assert [m.kind.b][1..] == [];
    assert target[..m.pos] + VcdiffDecoder.Repeat(m.kind.b, m.size) == target[..m.End()];
  }

  lemma AddDenotes(w: Window, target: seq<byte>, m: Match, cache: Cache)
    requires w.Valid() && w.length == |target| && cache.Valid()
    requires m.kind.Add? && m.size > 0 && m.End() <= |target|
    ensures Denotes(w, target, m.pos, CodeTable.Half(CodeTable.ADD, m.size), cache, [],
                    target[m.pos..m.End()], VcdiffDecoder.Inst(CodeTable.ADD, m.size, 0), cache)
  {
    var bytes := target[m.pos..m.End()];
    assert bytes[..m.size] == bytes && bytes[m.size..] == [];
    assert target[..m.pos] + bytes == target[..m.End()];
  }

  /** Where a COPY reads, in the address space that puts the source before the target. */
  function Address(w: Window, m: Match): nat
    requires m.kind.Copy?
  {
    if m.kind.fromSource then m.kind.addr else |w.source| + m.kind.addr
  }

  /** An instruction held back in case the next can share its opcode. */
  datatype Held = Nothing | Held(half: Half)

  class Encoder {
    const window: Window
    const target: seq<byte>
    const caches: AddressCache.Caches
    var inst: seq<byte>
    var addr: seq<byte>
    var data: seq<byte>
    var held: Held
    var unencoded: nat
    // The sections and caches as they were before the held instruction.
    ghost var addr0: seq<byte>
    ghost var data0: seq<byte>
    ghost var cache0: Cache
    // What has been sent, as the decoder reads it, the held instruction, and the matches they stand for.
    ghost var trace: seq<(Inst, Inst)>
    ghost var heldInst: Inst
    ghost var plan: seq<Match>

    /** The sections decode to everything encoded so far, short of the held instruction, whose
        address and data are already out. */
    ghost predicate Valid()
      reads this, caches, caches.near, caches.same
    {
      && window.Valid() && window.length == |target| && unencoded <= |target|
      && caches.Valid() && AddressCache.Filed(caches.View())
      && Tight(trace)
      && match held
         case Nothing =>
           && DecodesTo(window, target, inst, addr, data, unencoded, caches.View(), trace)
           && Follows(window, VcdiffDecoder.Flat(trace), plan)
           && (trace != [] ==> trace[|trace| - 1].1 != VcdiffDecoder.NOTHING)
         case Held(h) =>
           && h.size <= unencoded && addr0 <= addr && data0 <= data
           && DecodesTo(window, target, inst, addr0, data0, unencoded - h.size, cache0, trace)
           && Denotes(window, target, unencoded - h.size, h, cache0, addr[|addr0|..], data[|data0|..],
                      heldInst, caches.View())
           && heldInst.kind == h.kind && TightBefore(trace, heldInst)
           && Follows(window, VcdiffDecoder.Flat(trace) + [heldInst], plan)
    }

    constructor (source: seq<byte>, target: seq<byte>)
      requires |source| + |target| < TWO32
      ensures Valid() && held == Nothing && unencoded == 0 && plan == []
      ensures window == VcdiffDecoder.Window(source, |target|) && this.target == target
      ensures fresh(caches) && fresh(caches.near) && fresh(caches.same)
    {
      window := VcdiffDecoder.Window(source, |target|);
      this.target := target;
      caches := new AddressCache.Caches();
      inst, addr, data, held, unencoded := [], [], [], Nothing, 0;
      addr0, data0, cache0 := [], [], AddressCache.Empty();
      trace, heldInst, plan := [], VcdiffDecoder.NOTHING, [];
      new;
      assert target[..0] == [];
    }

    /** Sends the address or data of one instruction and returns its type. */
    method SendOperands(m: Match) returns (half: Half, ghost ia: seq<byte>, ghost id: seq<byte>, ghost i: Inst)
      requires Valid() && Sendable(m)
      modifies this`addr, this`data, caches, caches.near, caches.same
      ensures caches.Valid() && AddressCache.Filed(caches.View())
      ensures addr == old(addr) + ia && data == old(data) + id && half.size == m.size
      ensures Denotes(window, target, m.pos, half, old(caches.View()), ia, id, i, caches.View())
      ensures i.kind == half.kind && Realizes(window, i, m)
    {
      hide VcdiffDecoder.ParseHalf, VcdiffDecoder.Output, VcdiffDecoder.Run, Denotes, DecodesTo;
      ia, id := [], [];
      ghost var cache := caches.View();
      match m.kind
      case Copy(from, fromSource) =>
        var address := if fromSource then from else |window.source| + from;
        var mode, bytes := caches.Encode(address, |window.source| + m.pos);
        addr, ia := addr + bytes, bytes;
        half, i := CodeTable.Half(CodeTable.CPY + mode, m.size), VcdiffDecoder.Inst(CodeTable.CPY + mode, m.size, address);
        CopyDenotes(window, target, m, cache, mode, bytes);
      case Run(b) =>
        data, id := data + [b], [b];
        half, i := CodeTable.Half(CodeTable.RUN, m.size), VcdiffDecoder.Inst(CodeTable.RUN, m.size, 0);
        RunDenotes(window, target, m, cache);
      case Add =>
        data, id := data + target[m.pos..m.End()], target[m.pos..m.End()];
        half, i := CodeTable.Half(CodeTable.ADD, m.size), VcdiffDecoder.Inst(CodeTable.ADD, m.size, 0);
        AddDenotes(window, target, m, cache);
    }

    ghost predicate Sendable(m: Match)
      reads this`unencoded
    {
      && m.pos == unencoded && m.size > 0 && m.End() <= |target|
      && (!m.kind.Add? ==> m.size >= MIN_MATCH && Correct(window.source, target, m))
    }

    /** Sends one instruction's operands, then either pairs it with the held one or sends that one
        alone and holds this. */
    method Finish(m: Match)
      requires Valid() && Sendable(m)
      modifies this, caches, caches.near, caches.same
      ensures Valid() && unencoded == m.End() && plan == old(plan) + [m]
    {
      hide VcdiffDecoder.ParseHalf, VcdiffDecoder.Output, VcdiffDecoder.Run, VcdiffDecoder.Trace, AddressCache.Filed;
      hide CodeTable.SingleCode, CodeTable.Meaning, CodeTable.DoubleCode, Realizes, Unpaired, Tight, TightBefore, Follows, VcdiffDecoder.Flat;
      hide Denotes, DecodesTo;
      ghost var before, addr1, data1 := caches.View(), addr, data;
      var half, ia, id, i := SendOperands(m);
      DenotedHalf(window, target, m.pos, half, before, ia, id, i, caches.View());
      unencoded := unencoded + m.size;
      assert VcdiffDecoder.Flat(trace) + [] == VcdiffDecoder.Flat(trace);
      FollowsMore(window, VcdiffDecoder.Flat(trace) + if held.Held? then [heldInst] else [], plan, i, m);
      plan := plan + [m];
      if held.Held? {
        var prev := held.half;
        ghost var ia0, id0 := addr1[|addr0|..], data1[|data0|..];
        assert addr1 == addr0 + ia0 && data1 == data0 + id0;
        DenotedHalf(window, target, m.pos - prev.size, prev, cache0, ia0, id0, heldInst, before);
        var code: byte := CodeTable.DoubleCode(prev, half);
        if code != 0 {
          DoubleExtends(window, target, inst, addr0, data0, m.pos - prev.size, cache0, trace, prev, ia0, id0, heldInst, before,
                        half, ia, id, i, caches.View());
          PairSent(window, trace, heldInst, i, plan);
          inst, held, trace := inst + [code], Nothing, trace + [(heldInst, i)];
          return;
        }
        SingleExtends(window, target, inst, addr0, data0, m.pos - prev.size, cache0, trace, prev, ia0, id0, heldInst, before);
        NoDouble(heldInst, i);
        OneSent(window, trace, heldInst, [i], plan);
        LastSent(trace, heldInst, i);
        SendHeld();
        trace := trace + [(heldInst, VcdiffDecoder.NOTHING)];
        Hold(half, i, ia, id, addr1, data1, before);
      } else {
        assert VcdiffDecoder.Flat(trace) + [] + [i] == VcdiffDecoder.Flat(trace) + [i];
        NothingSent(trace, i);
        Hold(half, i, ia, id, addr1, data1, before);
      }
    }

    /** Holds an instruction back whose operands have been sent. */
    method Hold(half: Half, ghost i: Inst, ghost ia: seq<byte>, ghost id: seq<byte>, ghost addr1: seq<byte>, ghost data1: seq<byte>, ghost before: Cache)
      requires window.Valid() && window.length == |target| && half.size <= unencoded <= |target|
      requires caches.Valid() && AddressCache.Filed(caches.View()) && addr == addr1 + ia && data == data1 + id
      requires DecodesTo(window, target, inst, addr1, data1, unencoded - half.size, before, trace)
      requires Denotes(window, target, unencoded - half.size, half, before, ia, id, i, caches.View())
      requires i.kind == half.kind && Tight(trace) && TightBefore(trace, i) && Follows(window, VcdiffDecoder.Flat(trace) + [i], plan)
      modifies this`held, this`addr0, this`data0, this`cache0, this`heldInst
      ensures Valid()
    {
      hide AddressCache.Filed, Tight, TightBefore, Follows, VcdiffDecoder.Flat, Denotes, DecodesTo;
      held, heldInst := Held(half), i;
      addr0, data0, cache0 := addr1, data1, before;
      assert addr[|addr0|..] == ia && data[|data0|..] == id;
    }

    /** Sends the held instruction under an opcode of its own. */
    method SendHeld()
      requires held.Held? && CodeTable.Encodable(held.half) && held.half.size < TWO32
      modifies this`inst
      ensures inst == old(inst) + SingleBytes(held.half)
    {
      var code := CodeTable.SingleCode(held.half);
      inst := inst + [code];
      if CodeTable.Meaning(code).size1 == 0 {
        var size := Varint.Emit(held.half.size);
        inst := inst + size;
      }
    }

    /** Covers everything up to `pos` with an ADD, if there is anything. */
    method FillGap(pos: nat)
      requires Valid() && unencoded <= pos <= |target|
      modifies this, caches, caches.near, caches.same
      ensures Valid() && unencoded == pos && plan == old(plan) + Gap(old(unencoded), pos)
    {
      hide Valid;
      if pos > unencoded {
        Finish(Match(Add, unencoded, pos - unencoded));
      }
    }

    /** Covers the rest of the window and sends the last held instruction. */
    method Finalize()
      requires Valid()
      modifies this, caches, caches.near, caches.same
      ensures caches.Valid() && DecodesTo(window, target, inst, addr, data, |target|, caches.View(), trace)
      ensures Tight(trace) && Follows(window, VcdiffDecoder.Flat(trace), plan) && plan == old(plan) + Gap(old(unencoded), |target|)
    {
      hide VcdiffDecoder.ParseHalf, VcdiffDecoder.Output, VcdiffDecoder.Run, VcdiffDecoder.Trace, AddressCache.Filed;
      hide CodeTable.SingleCode, CodeTable.Meaning, Realizes, Unpaired, Tight, VcdiffDecoder.Flat;
      FillGap(|target|);
      if held.Held? {
        ghost var h := held.half;
        ghost var ia0, id0 := addr[|addr0|..], data[|data0|..];
        assert addr == addr0 + ia0 && data == data0 + id0;
        SingleExtends(window, target, inst, addr0, data0, unencoded - h.size, cache0, trace, h, ia0, id0, heldInst, caches.View());
        assert VcdiffDecoder.Flat(trace) + [heldInst] + [] == VcdiffDecoder.Flat(trace) + [heldInst];
        OneSent(window, trace, heldInst, [], plan);
        assert VcdiffDecoder.Flat(trace + [(heldInst, VcdiffDecoder.NOTHING)]) + [] == VcdiffDecoder.Flat(trace + [(heldInst, VcdiffDecoder.NOTHING)]);
        SendHeld();
        held, trace := Nothing, trace + [(heldInst, VcdiffDecoder.NOTHING)];
      }
    }
  }

  /** Matches that reproduce the target, in order, none overlapping the next. */
  ghost predicate Encodable(source: seq<byte>, target: seq<byte>, list: seq<Match>) {
    && Disjoint(list) && LongEnough(list)
    && forall j :: 0 <= j < |list| ==> !list[j].kind.Add? && Correct(source, target, list[j])
  }

  lemma AllDecodes(w: Window, target: seq<byte>, inst: seq<byte>, addr: seq<byte>, data: seq<byte>, cache: Cache, trace: seq<(Inst, Inst)>)
    requires DecodesTo(w, target, inst, addr, data, |target|, cache, trace)
    ensures VcdiffDecoder.DecodeWindow(w, inst, addr, data) == Ok(target)
    ensures VcdiffDecoder.Trace(w, VcdiffDecoder.Start(inst, addr, data)) == trace
  {
    assert target[..|target|] == target;
  }

  /** Whatever the matches, the three sections decode to exactly the target window, by exactly those
      matches and an ADD for each gap, and no two neighbours are sent apart that one opcode could have
      sent together. */
  method EncodeWindow(source: seq<byte>, target: seq<byte>, list: seq<Match>)
      returns (inst: seq<byte>, addr: seq<byte>, data: seq<byte>)
    requires |source| + |target| < TWO32 && Encodable(source, target, list)
    ensures VcdiffDecoder.DecodeWindow(VcdiffDecoder.Window(source, |target|), inst, addr, data) == Ok(target)
    ensures var w := VcdiffDecoder.Window(source, |target|);
      var trace := VcdiffDecoder.Trace(w, VcdiffDecoder.Start(inst, addr, data));
      Follows(w, VcdiffDecoder.Flat(trace), Plan(list, |target|)) && Tight(trace)
  {
    hide Encoder.Valid, DecodesTo, VcdiffDecoder.DecodeWindow, VcdiffDecoder.Trace, VcdiffDecoder.Flat, Follows, Tight;
    var encoder := new Encoder(source, target);
    for j := 0 to |list|
      invariant encoder.Valid() && encoder.unencoded == Reached(list[..j]) && encoder.plan == Filled(list[..j])
      invariant encoder.window == VcdiffDecoder.Window(source, |target|) && encoder.target == target
      invariant fresh(encoder) && fresh(encoder.caches) && fresh(encoder.caches.near) && fresh(encoder.caches.same)
    {
      assert j > 0 ==> list[j - 1].End() <= list[(j - 1) + 1].pos;
      assert list[..j + 1][..j] == list[..j];
      encoder.FillGap(list[j].pos);
      encoder.Finish(list[j]);
    }
    assert list[..|list|] == list;
    encoder.Finalize();
    inst, addr, data := encoder.inst, encoder.addr, encoder.data;
    AllDecodes(encoder.window, target, inst, addr, data, encoder.caches.View(), encoder.trace);
  }

  /** A queue of overlapping matches as string matching leaves it. */
  ghost predicate Queued(source: seq<byte>, target: seq<byte>, queue: seq<Match>) {
    && Increasing(queue) && LongEnough(queue)
    && forall j :: 0 <= j < |queue| ==> !queue[j].kind.Add? && Correct(source, target, queue[j])
  }

  lemma CutStaysCorrect(source: seq<byte>, target: seq<byte>, queue: seq<Match>, used: seq<Match>)
    requires Queued(source, target, queue) && CutFrom(used, queue) && Disjoint(used) && LongEnough(used)
    ensures Encodable(source, target, used)
  {
    forall j | 0 <= j < |used|
      ensures !used[j].kind.Add? && Correct(source, target, used[j])
    {
      assert HasOriginal(used[j], queue);
      var k :| 0 <= k < |queue| && Within(used[j], queue[k]);
      WithinCorrect(source, target, used[j], queue[k]);
    }
  }

  /** The whole way round: resolve the overlaps, encode, decode, and the target is back. */
  method RoundTrip(source: seq<byte>, target: seq<byte>, queue: seq<Match>) returns (r: Result<seq<byte>>)
    requires |source| + |target| < TWO32 && Queued(source, target, queue)
    ensures r == Ok(target)
  {
    var used, run := Flush(queue);
    CutStaysCorrect(source, target, queue, used);
    var inst, addr, data := EncodeWindow(source, target, used);
    r := VcdiffDecoder.DecodeSections(VcdiffDecoder.Window(source, |target|), inst, addr, data);
  }
}
