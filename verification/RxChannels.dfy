/** The receive-channel bookkeeping of a MACsec entity as a value: the list of channels, most recent
    first, the counter kept beside it, and what each command does to the two. */
module RxChannels {
  import opened MachineInts

  const ENODEV := 19
  const EBUSY := 16
  const MACSEC_MAX_AN := 4

  /** A receive channel; `slots[an]` tells whether association number `an` is occupied. */
  datatype Channel = Channel(sci: u64, active: bool, slots: seq<bool>)

  const NoSlots := [false, false, false, false]

  /** Index of the first channel with the given identifier, or the length. */
  function First(list: seq<Channel>, sci: u64): (i: nat)
    ensures i <= |list| && (i < |list| ==> list[i].sci == sci)
    ensures forall j :: 0 <= j < i ==> list[j].sci != sci
  {
    if list == [] || list[0].sci == sci then 0 else First(list[1..], sci) + 1
  }

  function RemoveAt(list: seq<Channel>, i: nat): seq<Channel>
    requires i < |list|
  {
    list[..i] + list[i + 1..]
  }

  // ---- Lookup ----

  datatype Lookup = Running | Done(index: nat)

  /** gpy211_find_rx_sc_rtnl observed for `steps` iterations, its cursor at index `at` (the length
      stands for NULL).  Whatever the cursor, the next one is the successor of the head. */
  function FindLoop(list: seq<Channel>, sci: u64, at: nat, steps: nat): Lookup
    decreases steps
  {
    if at >= |list| then Done(|list|)
    else if list[at].sci == sci then Done(at)
    else if steps == 0 then Running
    else FindLoop(list, sci, 1, steps - 1)
  }

  /** The walk the deletion uses: each cursor is the successor of the one before. */
  function WalkLoop(list: seq<Channel>, sci: u64, at: nat, steps: nat): Lookup
    decreases steps
  {
    if at >= |list| then Done(|list|)
    else if list[at].sci == sci then Done(at)
    else if steps == 0 then Running
    else WalkLoop(list, sci, at + 1, steps - 1)
  }

  /** The lookup as written comes to an end. */
  ghost predicate FindEnds(list: seq<Channel>, sci: u64) {
    exists steps: nat :: FindLoop(list, sci, 0, steps).Done?
  }

  predicate NearHead(list: seq<Channel>, sci: u64) {
    |list| < 2 || list[0].sci == sci || list[1].sci == sci
  }

  lemma {:induction false} StuckOnSecond(list: seq<Channel>, sci: u64, steps: nat)
    requires |list| >= 2 && list[1].sci != sci
    ensures FindLoop(list, sci, 1, steps) == Running
    decreases steps
  {
    if steps > 0 {
      StuckOnSecond(list, sci, steps - 1);
    }
  }

  /** The lookup as written ends exactly for lists with fewer than two channels or a match among the
      first two. */
  lemma FindEndsExactly(list: seq<Channel>, sci: u64)
    ensures FindEnds(list, sci) <==> NearHead(list, sci)
  {
    if NearHead(list, sci) {
      assert FindLoop(list, sci, 0, 1).Done?;
    } else {
      forall steps: nat
        ensures FindLoop(list, sci, 0, steps) == Running
      {
        if steps > 0 {
          StuckOnSecond(list, sci, steps - 1);
        }
      }
    }
  }

  /** When it ends, it ends with the first match, or none. */
  lemma FindIsFirst(list: seq<Channel>, sci: u64, steps: nat)
    requires FindLoop(list, sci, 0, steps).Done?
    ensures FindLoop(list, sci, 0, steps) == Done(First(list, sci)) && NearHead(list, sci)
  {
    FindEndsExactly(list, sci);
  }

  /** The intended walk ends for every list, with the first match or none. */
  lemma {:induction false} WalkFinds(list: seq<Channel>, sci: u64, at: nat, steps: nat)
    requires at <= First(list, sci) && at + steps >= |list|
    ensures WalkLoop(list, sci, at, steps) == Done(First(list, sci))
    decreases steps
  {
    if at < First(list, sci) {
      WalkFinds(list, sci, at + 1, steps - 1);
    }
  }

  // ---- Commands ----

  /** The entity: its channels and the 32-bit counter n_rx_sc. */
  datatype State = State(list: seq<Channel>, count: u32)

  const Empty := State([], 0)

  /** Attributes that may be absent from a request. */
  datatype Attr<T> = Absent | Given(value: T)

  datatype Command =
    | AddRxsc(sci: Attr<u64>, active: Attr<u8>)
    | UpdRxsc(sci: Attr<u64>, active: Attr<u8>)
    | DelRxsc(sci: Attr<u64>)
    | AddRxsa(sci: Attr<u64>, saValid: bool, an: u8, keyFits: bool, programmed: bool)

  /** An error code or 0; or the lookup never returns; or it returned NULL and that is followed. */
  datatype Answer = Code(ret: int) | Hangs | NullAccess

  predicate ValidRxsc(sci: Attr<u64>, active: Attr<u8>) {
    sci.Given? && (active.Given? ==> active.value <= 1)
  }

  function Create(s: State, sci: u64): State {
    State([Channel(sci, true, NoSlots)] + s.list, (s.count + 1) % W32)
  }

  function Delete(s: State, sci: u64): State {
    var i := First(s.list, sci);
    if i == |s.list| then s
    else State(RemoveAt(s.list, i), if s.list[i].active then (s.count - 1) % W32 else s.count)
  }

  function SetActive(s: State, i: nat, active: bool): State
    requires i < |s.list|
  {
    s.(list := s.list[i := s.list[i].(active := active)])
  }

  /** Recount as the update command does: only when the flag changes. */
  function Update(s: State, i: nat, active: bool): State
    requires i < |s.list|
  {
    SetActive(s, i, active).(count := if s.list[i].active == active then s.count
                                      else if active then (s.count + 1) % W32
                                      else (s.count - 1) % W32)
  }

  function Occupy(s: State, i: nat, an: nat): State
    requires i < |s.list| && an < |s.list[i].slots|
  {
    s.(list := s.list[i := s.list[i].(slots := s.list[i].slots[an := true])])
  }

  function SlotTaken(s: State, i: nat, an: nat): bool
    requires i < |s.list|
  {
    an < |s.list[i].slots| && s.list[i].slots[an]
  }

  predicate SlotsSized(list: seq<Channel>) {
    forall c :: c in list ==> |c.slots| == MACSEC_MAX_AN
  }

  /** One command: its answer and the state it leaves. */
  function Step(s: State, c: Command): (Answer, State)
    requires SlotsSized(s.list)
  {
    match c
    case AddRxsc(sci, active) =>
      if !ValidRxsc(sci, active) then (Code(-EINVAL), s)
      else
        var t := Create(s, sci.value);
        (Code(0), if active.Given? then SetActive(t, 0, active.value != 0) else t)
    case UpdRxsc(sci, active) =>
      if !ValidRxsc(sci, active) then (Code(-EINVAL), s)
      else if !NearHead(s.list, sci.value) then (Hangs, s)
      else
        var i := First(s.list, sci.value);
        if active.Absent? then (Code(0), s)
        else if i == |s.list| then (NullAccess, s)
        else (Code(0), Update(s, i, active.value != 0))
    case DelRxsc(sci) =>
      if sci.Absent? then (Code(-EINVAL), s)
      else if First(s.list, sci.value) == |s.list| then (Code(-ENODEV), s)
      else (Code(0), Delete(s, sci.value))
    case AddRxsa(sci, saValid, an, keyFits, programmed) =>
      if !saValid || an >= MACSEC_MAX_AN || sci.Absent? then (Code(-EINVAL), s)
      else if !NearHead(s.list, sci.value) then (Hangs, s)
      else
        var i := First(s.list, sci.value);
        if i == |s.list| then (NullAccess, s)
        else if SlotTaken(s, i, an) then (Code(-EBUSY), s)
        else
          assert s.list[i] in s.list;
          (Code(if !keyFits then -EINVAL else if programmed then 0 else -1), Occupy(s, i, an))
  }

  lemma StepKeepsSlots(s: State, c: Command)
    requires SlotsSized(s.list)
    ensures SlotsSized(Step(s, c).1.list)
  {
    var i := if c.sci.Given? then First(s.list, c.sci.value) else 0;
    if i < |s.list| {
      assert s.list[i] in s.list;
    }
  }

  // ---- The counter ----

  function Actives(list: seq<Channel>): nat {
    if list == [] then 0 else (if list[0].active then 1 else 0) + Actives(list[1..])
  }

  lemma {:induction false} ActivesConcat(a: seq<Channel>, b: seq<Channel>)
    ensures Actives(a + b) == Actives(a) + Actives(b)
  {
    if a == [] {
      assert a + b == b;
    } else {
      assert (a + b)[1..] == a[1..] + b;
      ActivesConcat(a[1..], b);
    }
  }

  lemma {:induction false} ActivesSplit(list: seq<Channel>, i: nat)
    requires i < |list|
    ensures Actives(list) == Actives(RemoveAt(list, i)) + (if list[i].active then 1 else 0)
    decreases i
  {
    if i == 0 {
      assert RemoveAt(list, 0) == list[1..];
    } else {
      assert RemoveAt(list, i)[1..] == RemoveAt(list[1..], i - 1);
      ActivesSplit(list[1..], i - 1);
    }
  }

  lemma ActivesUpdate(list: seq<Channel>, i: nat, c: Channel)
    requires i < |list|
    ensures Actives(list[i := c]) == Actives(list) - (if list[i].active then 1 else 0) + (if c.active then 1 else 0)
  {
    ActivesSplit(list, i);
    ActivesSplit(list[i := c], i);
    assert RemoveAt(list[i := c], i) == RemoveAt(list, i);
  }

  /** A valid addition that asks for an inactive channel. */
  predicate AddsInactive(c: Command) {
    c.AddRxsc? && ValidRxsc(c.sci, c.active) && c.active == Given(0)
  }

  function CountInactiveAdds(cs: seq<Command>): nat {
    if cs == [] then 0
    else CountInactiveAdds(cs[..|cs| - 1]) + (if AddsInactive(cs[|cs| - 1]) then 1 else 0)
  }

  function Run(cs: seq<Command>): (s: State)
    ensures SlotsSized(s.list)
  {
    if cs == [] then Empty
    else
      var s := Run(cs[..|cs| - 1]);
      StepKeepsSlots(s, cs[|cs| - 1]);
      Step(s, cs[|cs| - 1]).1
  }

  /** The counter is ahead of the active channels by `drift`. */
  predicate Drifted(s: State, drift: nat) {
    s.count == (Actives(s.list) + drift) % W32
  }

  lemma WrapAdd(count: u32, x: int, d: int)
    requires count == x % W32
    ensures (count + d) % W32 == (x + d) % W32
  {
    var k := x / W32;
    assert x == k * W32 + count;
    assert x + d == k * W32 + (count + d);
    ModShift(count + d, k);
  }

  lemma ModShift(x: int, k: int)
    ensures (k * W32 + x) % W32 == x % W32
  {}

  /** From `s` to `t` the active channels change by `delta` and the counter by `counted`. */
  predicate Moves(s: State, t: State, delta: int, counted: int) {
    Actives(t.list) == Actives(s.list) + delta && t.count == (s.count + counted) % W32
  }

  lemma AddMoves(s: State, sci: u64, active: Attr<u8>)
    ensures var t := Create(s, sci);
            && Moves(s, t, 1, 1)
            && Moves(s, SetActive(t, 0, false), 0, 1)
            && SetActive(t, 0, true) == t
  {
    var t := Create(s, sci);
    assert t.list[1..] == s.list;
    ActivesUpdate(t.list, 0, t.list[0].(active := false));
    assert t.list[0 := t.list[0].(active := true)] == t.list;
  }

  lemma UpdateMoves(s: State, i: nat, now: bool)
    requires i < |s.list|
    ensures var d := (if now then 1 else 0) - (if s.list[i].active then 1 else 0);
            Moves(s, Update(s, i, now), d, d)
  {
    ActivesUpdate(s.list, i, s.list[i].(active := now));
  }

  lemma DeleteMoves(s: State, sci: u64)
    ensures var i := First(s.list, sci);
            var d := if i < |s.list| && s.list[i].active then -1 else 0;
            Moves(s, Delete(s, sci), d, d)
  {
    var i := First(s.list, sci);
    if i < |s.list| {
      ActivesSplit(s.list, i);
    }
  }

  lemma OccupyMoves(s: State, i: nat, an: nat)
    requires i < |s.list| && an < |s.list[i].slots|
    ensures Moves(s, Occupy(s, i, an), 0, 0)
  {
    ActivesUpdate(s.list, i, s.list[i].(slots := s.list[i].slots[an := true]));
  }

  /** A command changes the number of active channels by `delta` and the counter by as much, except
      that an addition asking for an inactive channel counts it all the same. */
  lemma StepCounts(s: State, c: Command) returns (delta: int)
    requires SlotsSized(s.list)
    ensures var counted := delta + (if AddsInactive(c) then 1 else 0);
            counted <= 1 && Moves(s, Step(s, c).1, delta, counted)
  {
    delta := 0;
    if Step(s, c).1 == s {
    } else if c.AddRxsc? {
      AddMoves(s, c.sci.value, c.active);
      delta := if AddsInactive(c) then 0 else 1;
    } else {
      var i := First(s.list, c.sci.value);
      if c.UpdRxsc? {
        delta := (if c.active.value != 0 then 1 else 0) - (if s.list[i].active then 1 else 0);
        UpdateMoves(s, i, c.active.value != 0);
      } else if c.DelRxsc? {
        delta := if s.list[i].active then -1 else 0;
        DeleteMoves(s, c.sci.value);
      } else {
        assert s.list[i] in s.list;
        OccupyMoves(s, i, c.an);
      }
    }
  }

  lemma StepDrift(s: State, c: Command, drift: nat)
    requires SlotsSized(s.list) && Drifted(s, drift)
    ensures Drifted(Step(s, c).1, drift + if AddsInactive(c) then 1 else 0)
  {
    var delta := StepCounts(s, c);
    WrapAdd(s.count, Actives(s.list) + drift, delta + (if AddsInactive(c) then 1 else 0));
  }

  /** Over every run the counter exceeds the number of active channels by the number of valid
      additions that asked for an inactive channel, modulo 2^32. */
  lemma {:induction false} CounterDrift(cs: seq<Command>)
    ensures Drifted(Run(cs), CountInactiveAdds(cs))
  {
    if cs != [] {
      CounterDrift(cs[..|cs| - 1]);
      StepDrift(Run(cs[..|cs| - 1]), cs[|cs| - 1], CountInactiveAdds(cs[..|cs| - 1]));
    }
  }

  lemma {:induction false} RunLength(cs: seq<Command>)
    ensures Actives(Run(cs).list) + CountInactiveAdds(cs) <= |cs|
  {
    if cs != [] {
      RunLength(cs[..|cs| - 1]);
      var delta := StepCounts(Run(cs[..|cs| - 1]), cs[|cs| - 1]);
    }
  }

  lemma NotWrapped(s: State, drift: nat)
    requires Drifted(s, drift) && Actives(s.list) + drift < W32
    ensures s.count == Actives(s.list) + drift
  {}

  /** Over every run of fewer than 2^32 commands the counter is exact precisely when no addition
      asked for an inactive channel. */
  lemma CounterExact(cs: seq<Command>)
    requires |cs| < W32
    ensures Run(cs).count == Actives(Run(cs).list) <==> CountInactiveAdds(cs) == 0
  {
    var s, drift := Run(cs), CountInactiveAdds(cs);
    CounterDrift(cs);
    RunLength(cs);
    NotWrapped(s, drift);
  }

  /** No deletion or deactivation ever decrements a zero counter. */
  lemma NoUnderflow(cs: seq<Command>, i: nat)
    requires |cs| < W32
    requires i < |Run(cs).list| && Run(cs).list[i].active
    ensures Run(cs).count > 0
  {
    CounterDrift(cs);
    RunLength(cs);
    NotWrapped(Run(cs), CountInactiveAdds(cs));
    ActivesSplit(Run(cs).list, i);
  }

  // ---- Contents ----

  function Scis(list: seq<Channel>): (scis: seq<u64>)
    ensures |scis| == |list|
  {
    if list == [] then [] else [list[0].sci] + Scis(list[1..])
  }

  function Without(scis: seq<u64>, i: nat): seq<u64>
    requires i < |scis|
  {
    scis[..i] + scis[i + 1..]
  }

  lemma {:induction false} ScisWithout(list: seq<Channel>, i: nat)
    requires i < |list|
    ensures Scis(RemoveAt(list, i)) == Without(Scis(list), i)
  {
    if i == 0 {
      assert RemoveAt(list, 0) == list[1..];
    } else {
      assert RemoveAt(list, i)[1..] == RemoveAt(list[1..], i - 1);
      ScisWithout(list[1..], i - 1);
    }
  }

  lemma {:induction false} FirstOfScis(list: seq<Channel>, sci: u64)
    ensures var i := First(list, sci);
            if i == |list| then sci !in Scis(list) else Scis(list)[i] == sci
  {
    if list != [] && list[0].sci != sci {
      FirstOfScis(list[1..], sci);
    }
  }

  lemma {:induction false} ScisKept(list: seq<Channel>, i: nat, c: Channel)
    requires i < |list| && c.sci == list[i].sci
    ensures Scis(list[i := c]) == Scis(list)
  {
    if i == 0 {
      assert list[0 := c][1..] == list[1..];
    } else {
      assert list[i := c][1..] == list[1..][i - 1 := c];
      ScisKept(list[1..], i - 1, c);
    }
  }

  lemma WithoutOne(scis: seq<u64>, i: nat)
    requires i < |scis|
    ensures multiset(scis) == multiset(Without(scis, i)) + multiset{scis[i]}
  {
    assert scis == scis[..i] + [scis[i]] + scis[i + 1..];
  }

  /** A deletion takes out the first channel with that identifier, if there is one, and keeps the order of
      the others. */
  lemma DeleteContents(s: State, sci: u64)
    ensures var i := First(s.list, sci);
            if i == |s.list| then sci !in Scis(s.list) && Delete(s, sci) == s
            else Scis(s.list)[i] == sci && Scis(Delete(s, sci).list) == Without(Scis(s.list), i)
  {
    FirstOfScis(s.list, sci);
    var i := First(s.list, sci);
    if i < |s.list| {
      ScisWithout(s.list, i);
    }
  }

  predicate Adds(c: Command) {
    c.AddRxsc? && ValidRxsc(c.sci, c.active)
  }

  /** A deletion that the state answers with success. */
  predicate Deletes(s: State, c: Command)
    requires SlotsSized(s.list)
  {
    c.DelRxsc? && Step(s, c).0 == Code(0)
  }

  /** The identifiers of the valid additions of a run, most recent first. */
  function Added(cs: seq<Command>): seq<u64> {
    if cs == [] then []
    else
      var c, before := cs[|cs| - 1], Added(cs[..|cs| - 1]);
      if Adds(c) then [c.sci.value] + before else before
  }

  /** The identifiers of the successful deletions of a run. */
  function Deleted(cs: seq<Command>): multiset<u64> {
    if cs == [] then multiset{}
    else
      var c, before := cs[|cs| - 1], Deleted(cs[..|cs| - 1]);
      if Deletes(Run(cs[..|cs| - 1]), c) then before + multiset{c.sci.value} else before
  }

  /** `a` is `b` with some elements left out. */
  predicate Subsequence(a: seq<u64>, b: seq<u64>) {
    a == [] ||
    (b != [] && ((a[0] == b[0] && Subsequence(a[1..], b[1..])) || Subsequence(a, b[1..])))
  }

  lemma SubsequencePrepended(a: seq<u64>, b: seq<u64>, x: u64)
    requires Subsequence(a, b)
    ensures Subsequence([x] + a, [x] + b)
  {
    assert ([x] + a)[1..] == a && ([x] + b)[1..] == b;
  }

  lemma {:induction false} SubsequenceWithout(a: seq<u64>, b: seq<u64>, i: nat)
    requires Subsequence(a, b) && i < |a|
    ensures Subsequence(Without(a, i), b)
  {
    var r := Without(a, i);
    if a[0] == b[0] && Subsequence(a[1..], b[1..]) {
      if i == 0 {
        assert r == a[1..];
      } else {
        assert r[1..] == Without(a[1..], i - 1);
        SubsequenceWithout(a[1..], b[1..], i - 1);
      }
    } else {
      SubsequenceWithout(a, b[1..], i);
    }
  }

  lemma AddContents(s: State, sci: u64, active: Attr<u8>)
    requires SlotsSized(s.list) && ValidRxsc(Given(sci), active)
    ensures Scis(Step(s, AddRxsc(Given(sci), active)).1.list) == [sci] + Scis(s.list)
  {
    assert Step(s, AddRxsc(Given(sci), active)).1.list[1..] == s.list;
  }

  lemma KeptContents(s: State, c: Command)
    requires SlotsSized(s.list) && !Adds(c) && !Deletes(s, c)
    ensures Scis(Step(s, c).1.list) == Scis(s.list)
  {
    var t := Step(s, c).1;
    if t != s {
      var i := First(s.list, c.sci.value);
      assert t.list == s.list[i := t.list[i]];
      ScisKept(s.list, i, t.list[i]);
    }
  }

  /** What a command does to the identifiers. */
  lemma StepContents(s: State, c: Command)
    requires SlotsSized(s.list)
    ensures var before, after := Scis(s.list), Scis(Step(s, c).1.list);
            if Adds(c) then after == [c.sci.value] + before
            else if Deletes(s, c) then
              var i := First(s.list, c.sci.value);
              i < |before| && before[i] == c.sci.value && after == Without(before, i)
            else after == before
  {
    if Adds(c) {
      AddContents(s, c.sci.value, c.active);
    } else if Deletes(s, c) {
      DeleteContents(s, c.sci.value);
    } else {
      KeptContents(s, c);
    }
  }

  lemma {:induction false} ContentsCount(cs: seq<Command>)
    ensures multiset(Scis(Run(cs).list)) + Deleted(cs) == multiset(Added(cs))
  {
    if cs != [] {
      var front, c := cs[..|cs| - 1], cs[|cs| - 1];
      ContentsCount(front);
      var s := Run(front);
      StepContents(s, c);
      if Deletes(s, c) {
        WithoutOne(Scis(s.list), First(s.list, c.sci.value));
      }
    }
  }

  lemma {:induction false} ContentsOrder(cs: seq<Command>)
    ensures Subsequence(Scis(Run(cs).list), Added(cs))
  {
    if cs != [] {
      var front, c := cs[..|cs| - 1], cs[|cs| - 1];
      ContentsOrder(front);
      var s := Run(front);
      StepContents(s, c);
      if Adds(c) {
        SubsequencePrepended(Scis(s.list), Added(front), c.sci.value);
      } else if Deletes(s, c) {
        SubsequenceWithout(Scis(s.list), Added(front), First(s.list, c.sci.value));
      }
    }
  }

  /** Over every run the list holds what was added and not successfully deleted, most recent first. */
  lemma ContentsOverRuns(cs: seq<Command>)
    ensures multiset(Scis(Run(cs).list)) + Deleted(cs) == multiset(Added(cs))
    ensures Subsequence(Scis(Run(cs).list), Added(cs))
  {
    ContentsCount(cs);
    ContentsOrder(cs);
  }

  // ---- What each command answers and leaves ----

  /** A valid addition puts a channel with no associations in front, active unless it asks not to be, and
      counts it; an invalid one is refused. */
  lemma AddAnswered(s: State, sci: Attr<u64>, active: Attr<u8>)
    requires SlotsSized(s.list)
    ensures var (answer, t) := Step(s, AddRxsc(sci, active));
            if sci.Absent? || (active.Given? && active.value > 1) then answer == Code(-EINVAL) && t == s
            else
              && answer == Code(0)
              && t.list != [] && t.list[1..] == s.list && t.count == (s.count + 1) % W32
              && t.list[0].sci == sci.value && t.list[0].slots == [false, false, false, false]
              && (t.list[0].active <==> active != Given(0))
  {
    if ValidRxsc(sci, active) {
      assert Step(s, AddRxsc(sci, active)).1.list[1..] == s.list;
    }
  }

  /** An update that finds its channel gives it the flag asked for and the counter the difference. */
  lemma UpdateAnswered(s: State, sci: Attr<u64>, active: Attr<u8>)
    requires SlotsSized(s.list)
    ensures var (answer, t) := Step(s, UpdRxsc(sci, active));
            if sci.Absent? || (active.Given? && active.value > 1) then answer == Code(-EINVAL) && t == s
            else if !NearHead(s.list, sci.value) then answer == Hangs && t == s
            else if active.Absent? then answer == Code(0) && t == s
            else
              var i := First(s.list, sci.value);
              if i == |s.list| then answer == NullAccess && t == s
              else
                && answer == Code(0) && |t.list| == |s.list|
                && (t.list[i].active <==> active.value == 1)
                && t.list[i].sci == s.list[i].sci && t.list[i].slots == s.list[i].slots
                && (forall j :: 0 <= j < |s.list| && j != i ==> t.list[j] == s.list[j])
                && t.count == (s.count + Flag(t.list[i].active) - Flag(s.list[i].active)) % W32
  {}

  function Flag(on: bool): int {
    if on then 1 else 0
  }

  /** A deletion that finds its channel takes it out of the list, and out of the count if it was active. */
  lemma DeleteAnswered(s: State, sci: Attr<u64>)
    requires SlotsSized(s.list)
    ensures var (answer, t) := Step(s, DelRxsc(sci));
            if sci.Absent? then answer == Code(-EINVAL) && t == s
            else
              var i := First(s.list, sci.value);
              if i == |s.list| then answer == Code(-ENODEV) && t == s
              else
                && answer == Code(0) && t.list == s.list[..i] + s.list[i + 1..]
                && t.count == (s.count - Flag(s.list[i].active)) % W32
  {}

  /** Nothing but slot `an` of channel `i`, which is taken now, has changed. */
  predicate OnlySlotTaken(s: State, t: State, i: nat, an: nat)
    requires i < |s.list|
  {
    && |t.list| == |s.list| && t.count == s.count
    && (forall j :: 0 <= j < |s.list| && j != i ==> t.list[j] == s.list[j])
    && t.list[i].sci == s.list[i].sci && t.list[i].active == s.list[i].active
    && |t.list[i].slots| == |s.list[i].slots| && an < |t.list[i].slots| && t.list[i].slots[an]
    && forall k :: 0 <= k < |s.list[i].slots| && k != an ==> t.list[i].slots[k] == s.list[i].slots[k]
  }

  /** An association that gets as far as its slot takes it, whatever it then answers; a taken slot is
      refused. */
  lemma AssociationAnswered(s: State, sci: Attr<u64>, saValid: bool, an: u8, keyFits: bool, programmed: bool)
    requires SlotsSized(s.list)
    ensures var (answer, t) := Step(s, AddRxsa(sci, saValid, an, keyFits, programmed));
            if !saValid || an >= 4 || sci.Absent? then answer == Code(-EINVAL) && t == s
            else if !NearHead(s.list, sci.value) then answer == Hangs && t == s
            else
              var i := First(s.list, sci.value);
              if i == |s.list| then answer == NullAccess && t == s
              else if an < |s.list[i].slots| && s.list[i].slots[an] then answer == Code(-EBUSY) && t == s
              else
                && OnlySlotTaken(s, t, i, an)
                && answer == Code(if !keyFits then -EINVAL else if !programmed then -1 else 0)
  {
    if sci.Given? && First(s.list, sci.value) < |s.list| {
      assert s.list[First(s.list, sci.value)] in s.list;
    }
  }

  /** So an association made once, successfully or not, is refused as busy when it is asked for again, and
      nothing changes any more. */
  lemma AssociationAgain(s: State, sci: u64, an: u8, keyFits: bool, programmed: bool)
    requires SlotsSized(s.list) && an < MACSEC_MAX_AN
    requires NearHead(s.list, sci) && First(s.list, sci) < |s.list|
    ensures var t := Step(s, AddRxsa(Given(sci), true, an, keyFits, programmed)).1;
            && SlotsSized(t.list)
            && forall fits, done :: Step(t, AddRxsa(Given(sci), true, an, fits, done)) == (Code(-EBUSY), t)
  {
    var c := AddRxsa(Given(sci), true, an, keyFits, programmed);
    StepKeepsSlots(s, c);
    var i := First(s.list, sci);
    assert s.list[i] in s.list;
    AssociationAnswered(s, Given(sci), true, an, keyFits, programmed);
    SameFirst(s.list, Step(s, c).1.list, sci);
  }

  lemma {:induction false} SameFirst(a: seq<Channel>, b: seq<Channel>, sci: u64)
    requires |a| == |b| && forall i :: 0 <= i < |a| ==> a[i].sci == b[i].sci
    ensures First(a, sci) == First(b, sci)
  {
    if a != [] {
      SameFirst(a[1..], b[1..], sci);
    }
  }
}
