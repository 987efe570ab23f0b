/** A log of regions becoming dirty and clean again, and what can be learned from the end of it. */
module DirtyStream {

  datatype LogEntry = Dirty(region: nat) | Clean(region: nat)

  /** What a reader of the log believes dirty after one more entry. */
  function Step(held: set<nat>, e: LogEntry): set<nat> {
    if e.Dirty? then held + {e.region} else held - {e.region}
  }

  function Replay(held: set<nat>, log: seq<LogEntry>): set<nat>
    decreases |log|
  {
    if log == [] then held else Replay(Step(held, log[0]), log[1..])
  }

  lemma {:induction false} ReplayConcat(held: set<nat>, a: seq<LogEntry>, b: seq<LogEntry>)
    ensures Replay(held, a + b) == Replay(Replay(held, a), b)
    decreases |a|
  {
    if a == [] {
      assert a + b == b;
    } else {
      ReplayConcat(Step(held, a[0]), a[1..], b);
      assert (a + b)[1..] == a[1..] + b;
    }
  }

  /** Entry `i` is the last word on its region. */
  ghost predicate Last(log: seq<LogEntry>, i: nat)
    requires i < |log|
  {
    forall j :: i < j < |log| ==> log[j].region != log[i].region
  }

  /** Where the log was read from, and where each region held was last said to be dirty: those
      entries, and no other entry from there on, are last words that say dirty. */
  ghost predicate Tells(log: seq<LogEntry>, from: nat, at: map<nat, nat>) {
    && from <= |log|
    && (forall r :: r in at ==> from <= at[r] < |log| && log[at[r]] == Dirty(r) && Last(log, at[r]))
    && forall i :: from <= i < |log| && log[i].Dirty? && Last(log, i) ==> log[i].region in at && at[log[i].region] == i
  }

  lemma {:induction false} ReplayTells(held: set<nat>, log: seq<LogEntry>, r: nat)
    ensures r in Replay(held, log) <==>
      (exists i :: 0 <= i < |log| && log[i] == Dirty(r) && Last(log, i)) || (r in held && forall i :: 0 <= i < |log| ==> log[i].region != r)
    decreases |log|
  {
    if log != [] {
      var tail := log[1..];
      assert forall i :: 0 <= i < |tail| ==> tail[i] == log[i + 1];
      ReplayTells(Step(held, log[0]), tail, r);
      forall i | 0 <= i < |tail|
        ensures Last(tail, i) <==> Last(log, i + 1)
      {
        LastTail(log, i);
      }
      if i :| 0 <= i < |tail| && tail[i] == Dirty(r) && Last(tail, i) {
        assert log[i + 1] == Dirty(r) && Last(log, i + 1);
      }
      if i :| 0 <= i < |log| && log[i] == Dirty(r) && Last(log, i) {
        if i > 0 {
          assert tail[i - 1] == Dirty(r) && Last(tail, i - 1);
        }
      }
    }
  }

  lemma LastTail(log: seq<LogEntry>, i: nat)
    requires i + 1 < |log|
    ensures Last(log[1..], i) <==> Last(log, i + 1)
  {
    var tail := log[1..];
    assert forall j :: 0 <= j < |tail| ==> tail[j] == log[j + 1];
    if Last(tail, i) {
      forall j | i + 1 < j < |log|
        ensures log[j].region != log[i + 1].region
      {
        assert tail[j - 1] == log[j];
      }
    }
  }

  lemma LastFrom(log: seq<LogEntry>, from: nat, i: nat)
    requires from + i < |log|
    ensures Last(log[from..], i) <==> Last(log, from + i)
  {
    var tail := log[from..];
    assert forall j :: 0 <= j < |tail| ==> tail[j] == log[from + j];
    if Last(tail, i) {
      forall j | from + i < j < |log|
        ensures log[j].region != log[from + i].region
      {
        assert tail[j - from] == log[j];
      }
    }
  }

  /** Reading from there gives exactly the regions held. */
  lemma Recovered(log: seq<LogEntry>, from: nat, at: map<nat, nat>)
    requires Tells(log, from, at)
    ensures Replay({}, log[from..]) == at.Keys
  {
    hide Last;
    var tail := log[from..];
    forall r
      ensures r in Replay({}, tail) <==> r in at
    {
      ReplayTells({}, tail, r);
      if i :| 0 <= i < |tail| && tail[i] == Dirty(r) && Last(tail, i) {
        LastFrom(log, from, i);
        assert log[from + i] == Dirty(r);
      }
      if r in at {
        var i := at[r] - from;
        LastFrom(log, from, i);
        assert tail[i] == Dirty(r) && Last(tail, i);
      }
    }
  }

  // What keeps the log telling

  lemma LastAppend(log: seq<LogEntry>, e: LogEntry, i: nat)
    requires i <= |log|
    ensures Last(log + [e], i) <==> i == |log| || (Last(log, i) && log[i].region != e.region)
  {
    var r := log + [e];
    if i < |log| {
      assert r[|log|] == e;
      if Last(r, i) {
        forall j | i < j < |log|
          ensures log[j].region != log[i].region
        {
          assert r[j] == log[j];
        }
      }
    }
  }

  lemma TellsDirty(log: seq<LogEntry>, from: nat, at: map<nat, nat>, r: nat)
    requires Tells(log, from, at)
    ensures Tells(log + [Dirty(r)], from, at[r := |log|])
  {
    hide Last;
    var e, now, at' := Dirty(r), log + [Dirty(r)], at[r := |log|];
    forall i | 0 <= i <= |log|
      ensures Last(now, i) <==> i == |log| || (Last(log, i) && log[i].region != r)
    {
      LastAppend(log, e, i);
    }
    forall s | s in at'
      ensures from <= at'[s] < |now| && now[at'[s]] == Dirty(s) && Last(now, at'[s])
    {
      LastAppend(log, e, at'[s]);
    }
  }

  lemma TellsClean(log: seq<LogEntry>, from: nat, at: map<nat, nat>, r: nat)
    requires Tells(log, from, at)
    ensures Tells(log + [Clean(r)], from, at - {r})
  {
    hide Last;
    var e, now, at' := Clean(r), log + [Clean(r)], at - {r};
    forall i | 0 <= i <= |log|
      ensures Last(now, i) <==> i == |log| || (Last(log, i) && log[i].region != r)
    {
      LastAppend(log, e, i);
    }
    forall s | s in at'
      ensures from <= at'[s] < |now| && now[at'[s]] == Dirty(s) && Last(now, at'[s])
    {
      LastAppend(log, e, at'[s]);
    }
  }

  /** An entry that is not where its region was last said to be dirty may be forgotten. */
  lemma TellsForget(log: seq<LogEntry>, from: nat, at: map<nat, nat>)
    requires Tells(log, from, at) && from < |log|
    requires log[from].Dirty? && log[from].region in at ==> at[log[from].region] != from
    ensures Tells(log, from + 1, at)
  {
    hide Last;
  }

  // The first word on a region

  ghost predicate Spoken(log: seq<LogEntry>, r: nat) {
    exists i :: 0 <= i < |log| && log[i].region == r
  }

  predicate FirstClean(log: seq<LogEntry>, r: nat) {
    log != [] && if log[0].region == r then log[0].Clean? else FirstClean(log[1..], r)
  }

  lemma {:induction false} FirstAppend(log: seq<LogEntry>, e: LogEntry, r: nat)
    ensures Spoken(log + [e], r) <==> Spoken(log, r) || e.region == r
    ensures FirstClean(log + [e], r) == if Spoken(log, r) then FirstClean(log, r) else e == Clean(r)
    ensures FirstClean(log, r) ==> Spoken(log, r)
  {
    var now := log + [e];
    assert now[|log|] == e && forall i :: 0 <= i < |log| ==> now[i] == log[i];
    if log == [] {
      assert now == [e] && now[1..] == [];
    } else {
      FirstAppend(log[1..], e, r);
      assert now[1..] == log[1..] + [e] && forall i :: 0 <= i < |log[1..]| ==> log[1..][i] == log[i + 1];
      if Spoken(log, r) && log[0].region != r {
        var i :| 0 <= i < |log| && log[i].region == r;
        assert log[1..][i - 1].region == r;
      }
    }
  }

  /** A region was held when the block was begun just if the first word on it says clean, or it is held
      and there is none. */
  ghost predicate Began(entries: seq<LogEntry>, held: set<nat>, before: set<nat>) {
    forall r :: r in before <==> if Spoken(entries, r) then FirstClean(entries, r) else r in held
  }

  lemma BeganDirty(entries: seq<LogEntry>, held: set<nat>, before: set<nat>, r: nat)
    requires Began(entries, held, before) && r !in held
    ensures Began(entries + [Dirty(r)], held + {r}, before)
  {
    hide Spoken, FirstClean;
    forall s
      ensures s in before <==> if Spoken(entries + [Dirty(r)], s) then FirstClean(entries + [Dirty(r)], s) else s in held + {r}
    {
      FirstAppend(entries, Dirty(r), s);
    }
  }

  lemma BeganClean(entries: seq<LogEntry>, held: set<nat>, before: set<nat>, r: nat)
    requires Began(entries, held, before) && r in held
    ensures Began(entries + [Clean(r)], held - {r}, before)
  {
    hide Spoken, FirstClean;
    forall s
      ensures s in before <==> if Spoken(entries + [Clean(r)], s) then FirstClean(entries + [Clean(r)], s) else s in held - {r}
    {
      FirstAppend(entries, Clean(r), s);
    }
  }

  lemma BeganNow(held: set<nat>)
    ensures Began([], held, held)
  {
  }

  lemma BeganEmpty(held: set<nat>, before: set<nat>)
    requires Began([], held, before)
    ensures before == held
  {
    assert forall r :: !Spoken([], r);
  }
}
