/** The receive channels as the driver keeps them: heap nodes linked by `next`, unlinked through a
    pointer to the link, each holding four slots of security associations that point back at it. */
module RxChannelList {
  import opened MachineInts
  import opened RxChannels

  const ENOMEM := 12

  /** A receive security association and the channel it belongs to. */
  class RxSa {
    const sc: RxSc

    constructor (sc: RxSc)
      ensures this.sc == sc
    {
      this.sc := sc;
    }
  }

  ghost function Occupied(sa: seq<RxSa?>): (slots: seq<bool>)
    ensures |slots| == |sa| && forall an :: 0 <= an < |sa| ==> slots[an] == (sa[an] != null)
  {
    seq(|sa|, an requires 0 <= an < |sa| => sa[an] != null)
  }

  class RxSc {
    var next: RxSc?
    const sci: u64
    var active: bool
    var sa: seq<RxSa?>

    constructor (sci: u64)
      ensures this.sci == sci && active && next == null && sa == [null, null, null, null]
    {
      this.sci := sci;
      active := true;
      next := null;
      sa := [null, null, null, null];
    }

    ghost function Value(): Channel
      reads this
    {
      Channel(sci, active, Occupied(sa))
    }
  }

  /** Four slots, and every occupied one names channel `owner`. */
  ghost predicate Owned(owner: RxSc, sa: seq<RxSa?>) {
    |sa| == MACSEC_MAX_AN && forall an :: 0 <= an < |sa| && sa[an] != null ==> sa[an].sc == owner
  }

  class Secy {
    var rxSc: RxSc?
    var nRxSc: u32
    ghost var nodes: seq<RxSc>
    /** How often an allocation has failed. */
    ghost var starved: nat

    ghost function NodeAt(i: nat): RxSc?
      reads this
    {
      if i < |nodes| then nodes[i] else null
    }

    /** The links form an acyclic chain through exactly `nodes`. */
    ghost predicate Valid()
      reads this, nodes
    {
      && rxSc == NodeAt(0)
      && (forall i {:trigger nodes[i].next} :: 0 <= i < |nodes| ==> nodes[i].next == NodeAt(i + 1))
      && (forall i, j :: 0 <= i < j < |nodes| ==> nodes[i] != nodes[j])
      && (forall i {:trigger nodes[i].sa} :: 0 <= i < |nodes| ==> Owned(nodes[i], nodes[i].sa))
    }

    ghost function Channels(): (list: seq<Channel>)
      reads this, nodes
      ensures |list| == |nodes| && forall i :: 0 <= i < |nodes| ==> list[i] == nodes[i].Value()
    {
      seq(|nodes|, i requires 0 <= i < |nodes| reads this, nodes => nodes[i].Value())
    }

    ghost function Value(): State
      reads this, nodes
    {
      State(Channels(), nRxSc)
    }

    constructor ()
      ensures Valid() && Value() == Empty
    {
      rxSc := null;
      nRxSc := 0;
      nodes := [];
      starved := 0;
    }

    /** Links a new node in at the head. */
    method PushFront(r: RxSc)
      requires Valid() && r !in nodes && r.sa == [null, null, null, null]
      modifies this`rxSc, this`nodes, r`next
      ensures Valid() && nodes == [r] + old(nodes)
      ensures Channels() == [Channel(r.sci, r.active, NoSlots)] + old(Channels())
    {
      r.next := rxSc;
      rxSc := r;
      nodes := [r] + nodes;
      assert forall i {:trigger nodes[i]} :: 1 <= i < |nodes| ==> nodes[i] == old(nodes)[i - 1];
      assert r.Value().slots == NoSlots;
    }

    /** gpy211_create_rx_sc; the allocation may fail. */
    method CreateRxSc(sci: u64) returns (r: RxSc?)
      requires Valid()
      modifies this
      ensures Valid()
      ensures r == null ==> Value() == old(Value()) && nodes == old(nodes)
      ensures starved == if r == null then old(starved) + 1 else old(starved)
      ensures r != null ==> fresh(r) && nodes == [r] + old(nodes) && Value() == Create(old(Value()), sci)
    {
      var fails: bool := *;
      if fails {
        starved := starved + 1;
        return null;
      }
      r := new RxSc(sci);
      PushFront(r);
      if r.active {
        Recount(1);
      }
    }

    /** Adds to the 32-bit counter. */
    method Recount(d: int)
      requires Valid()
      modifies this`nRxSc
      ensures Valid() && Channels() == old(Channels())
      ensures nRxSc == (old(nRxSc) + d) % W32
    {
      nRxSc := (nRxSc + d) % W32;
    }

    /** Moves the head link past the first node. */
    method UnlinkHead()
      requires Valid() && rxSc != null
      modifies this`rxSc, this`nodes
      ensures Valid()
      ensures nodes == old(nodes)[1..]
    {
      rxSc := rxSc.next;
      nodes := nodes[1..];
    }

    /** Moves the link inside `prev` past the node after it. */
    method UnlinkAfter(prev: RxSc, cur: RxSc, ghost i: nat)
      requires Valid()
      requires 0 < i < |nodes| && cur == nodes[i] && prev == nodes[i - 1]
      modifies this`nodes, prev`next
      ensures Valid()
      ensures nodes == old(nodes)[..i] + old(nodes)[i + 1..]
    {
      prev.next := cur.next;
      ghost var was := nodes;
      nodes := was[..i] + was[i + 1..];
      assert forall j {:trigger nodes[j]} :: 0 <= j < |nodes| ==> nodes[j] == was[if j < i then j else j + 1];
      assert NodeAt(i) == cur.next;
    }

    /** Channels whose own fields did not change keep their values, wherever they moved to. */
    twostate lemma ChannelsRemoved(i: nat)
      requires i < old(|nodes|) && nodes == old(nodes)[..i] + old(nodes)[i + 1..]
      requires forall j :: 0 <= j < old(|nodes|) ==>
                             && old(nodes)[j].sa == old(nodes[j].sa)
                             && old(nodes)[j].active == old(nodes[j].active)
      ensures Channels() == RemoveAt(old(Channels()), i)
    {
      assert forall j :: 0 <= j < |nodes| ==> nodes[j] == old(nodes)[if j < i then j else j + 1];
    }

    /** Writes through the pointer to the link: the list head while `prev` is null. */
    method Unlink(prev: RxSc?, cur: RxSc, ghost i: nat)
      requires Valid()
      requires i < |nodes| && cur == nodes[i] && prev == if i == 0 then null else nodes[i - 1]
      modifies this`rxSc, this`nodes, nodes
      ensures Valid()
      ensures nodes == old(nodes)[..i] + old(nodes)[i + 1..]
      ensures Channels() == RemoveAt(old(Channels()), i)
    {
      if prev == null {
        UnlinkHead();
      } else {
        UnlinkAfter(prev, cur, i);
      }
      ChannelsRemoved(i);
    }

    /** The walk of the deletion: the first match and the link to it, or the end of the list. */
    method FindLink(sci: u64) returns (prev: RxSc?, cur: RxSc?, ghost i: nat)
      requires Valid()
      ensures i == First(Channels(), sci)
      ensures cur == NodeAt(i) && prev == if i == 0 then null else nodes[i - 1]
    {
      prev := null;
      cur := rxSc;
      i := 0;
      while cur != null
        invariant i <= |nodes| && cur == NodeAt(i) && prev == if i == 0 then null else nodes[i - 1]
        invariant forall j :: 0 <= j < i ==> Channels()[j].sci != sci
        decreases |nodes| - i
      {
        if cur.sci == sci {
          break;
        }
        prev := cur;
        cur := cur.next;
        i := i + 1;
      }
      FirstAt(Channels(), sci, i);
    }

    /** The deletion at its match: the counter first, then the link. */
    method Remove(prev: RxSc?, cur: RxSc, ghost i: nat)
      requires Valid()
      requires i < |nodes| && cur == nodes[i] && prev == if i == 0 then null else nodes[i - 1]
      modifies this, nodes
      ensures Valid()
      ensures nodes == old(nodes)[..i] + old(nodes)[i + 1..]
      ensures Channels() == RemoveAt(old(Channels()), i)
      ensures nRxSc == if old(cur.active) then (old(nRxSc) - 1) % W32 else old(nRxSc)
    {
      if cur.active {
        Recount(-1);
      }
      Unlink(prev, cur, i);
    }

    /** gpy211_del_rx_sc: unlinks the first match. */
    method DelRxSc(sci: u64) returns (r: RxSc?)
      requires Valid()
      modifies this, nodes
      ensures Valid()
      ensures Value() == Delete(old(Value()), sci)
      ensures var i := First(old(Channels()), sci);
              && r == old(NodeAt(i))
              && nodes == if i < |old(nodes)| then old(nodes)[..i] + old(nodes)[i + 1..] else old(nodes)
    {
      var prev;
      ghost var i;
      prev, r, i := FindLink(sci);
      if r != null {
        Remove(prev, r, i);
      }
    }

    /** gpy211_find_rx_sc_rtnl, observed for at most `steps` advances of its cursor. */
    method FindRxSc(sci: u64, steps: nat) returns (ended: bool, r: RxSc?)
      requires Valid()
      ensures ended <==> FindLoop(Channels(), sci, 0, steps).Done?
      ensures ended ==> r == NodeAt(FindLoop(Channels(), sci, 0, steps).index)
    {
      var cur := rxSc;
      var left := steps;
      ghost var at: nat := 0;
      while true
        invariant at <= |nodes| && cur == NodeAt(at)
        invariant FindLoop(Channels(), sci, at, left) == FindLoop(Channels(), sci, 0, steps)
        decreases left
      {
        if cur == null {
          return true, null;
        }
        if cur.sci == sci {
          return true, cur;
        }
        if left == 0 {
          return false, null;
        }
        cur := rxSc.next;
        at := 1;
        left := left - 1;
      }
    }

    /** Sets the active flag of a listed channel. */
    method Mark(r: RxSc, active: bool, ghost i: nat)
      requires Valid() && i < |nodes| && r == nodes[i]
      modifies r`active
      ensures Valid() && Channels() == old(Channels())[i := old(Channels()[i]).(active := active)]
    {
      r.active := active;
      assert forall j {:trigger nodes[j]} :: 0 <= j < |nodes| && j != i ==> nodes[j] != r;
    }

    /** Puts a new association, pointing back at its channel, into a slot. */
    method TakeSlot(r: RxSc, an: nat, ghost i: nat)
      requires Valid() && i < |nodes| && r == nodes[i] && an < |r.sa|
      modifies r`sa
      ensures Valid() && |r.sa| == old(|r.sa|) && r.sa[an] != null && r.sa[an].sc == r
      ensures Channels() == old(Channels())[i := old(Channels()[i]).(slots := old(Channels()[i].slots)[an := true])]
    {
      var rxSa := new RxSa(r);
      r.sa := r.sa[an := rxSa];
      assert forall j {:trigger nodes[j]} :: 0 <= j < |nodes| && j != i ==> nodes[j] != r;
      assert r.Value().slots == old(r.Value().slots)[an := true];
    }

    /** gpy211_add_rxsc. */
    method AddRxscCommand(sci: Attr<u64>, active: Attr<u8>) returns (answer: Answer)
      requires Valid()
      modifies this
      ensures Valid() && SlotsSized(old(Channels()))
      ensures answer == Code(-ENOMEM) <==> starved > old(starved)
      ensures answer == Code(-ENOMEM) ==> Value() == old(Value())
      ensures answer != Code(-ENOMEM) ==> (answer, Value()) == Step(old(Value()), AddRxsc(sci, active))
    {
      SlotsAreSized();
      if !ValidRxsc(sci, active) {
        return Code(-EINVAL);
      }
      var r := CreateRxSc(sci.value);
      if r == null {
        return Code(-ENOMEM);
      }
      if active.Given? {
        Mark(r, active.value != 0, 0);
      }
      return Code(0);
    }

    /** The update of a channel that was found. */
    method Apply(r: RxSc, now: bool, ghost i: nat)
      requires Valid() && i < |nodes| && r == nodes[i]
      modifies this`nRxSc, r`active
      ensures Valid() && Value() == Update(old(Value()), i, now)
    {
      if r.active != now {
        Recount(if now then 1 else -1);
      }
      Mark(r, now, i);
    }

    /** gpy211_upd_rxsc; a lookup that has not ended after `steps` advances never will. */
    method UpdRxscCommand(sci: Attr<u64>, active: Attr<u8>, steps: nat) returns (answer: Answer)
      requires Valid() && steps > 0
      modifies this, nodes
      ensures Valid() && SlotsSized(old(Channels())) && nodes == old(nodes)
      ensures (answer, Value()) == Step(old(Value()), UpdRxsc(sci, active))
    {
      SlotsAreSized();
      if !ValidRxsc(sci, active) {
        return Code(-EINVAL);
      }
      var ended, r := FindRxSc(sci.value, steps);
      EndsWithin(Channels(), sci.value, steps);
      if !ended {
        return Hangs;
      }
      if active.Given? {
        if r == null {
          return NullAccess;
        }
        Apply(r, active.value != 0, First(Channels(), sci.value));
      }
      return Code(0);
    }

    /** gpy211_del_rxsc. */
    method DelRxscCommand(sci: Attr<u64>) returns (answer: Answer)
      requires Valid()
      modifies this, nodes
      ensures Valid() && SlotsSized(old(Channels()))
      ensures (answer, Value()) == Step(old(Value()), DelRxsc(sci))
    {
      SlotsAreSized();
      if sci.Absent? {
        return Code(-EINVAL);
      }
      var r := DelRxSc(sci.value);
      answer := if r == null then Code(-ENODEV) else Code(0);
    }

    /** gpy211_add_rxsa; `programmed` tells whether the hardware took the association.  The slot is taken
        before the key length is compared, so a refused key leaves it taken. */
    method AddRxsaCommand(sci: Attr<u64>, saValid: bool, an: u8, keyFits: bool, programmed: bool, steps: nat)
      returns (answer: Answer)
      requires Valid() && steps > 0
      modifies this`starved, nodes
      ensures Valid() && SlotsSized(old(Channels())) && nodes == old(nodes)
      ensures answer == Code(-ENOMEM) <==> starved > old(starved)
      ensures answer == Code(-ENOMEM) ==> Value() == old(Value())
      ensures answer != Code(-ENOMEM) ==>
                (answer, Value()) == Step(old(Value()), AddRxsa(sci, saValid, an, keyFits, programmed))
      ensures answer == Code(0) ==>
                var i := First(old(Channels()), sci.value);
                i < |nodes| && an < |nodes[i].sa| && nodes[i].sa[an] != null && nodes[i].sa[an].sc == nodes[i]
    {
      SlotsAreSized();
      if !saValid || an >= MACSEC_MAX_AN || sci.Absent? {
        return Code(-EINVAL);
      }
      var ended, r := FindRxSc(sci.value, steps);
      EndsWithin(Channels(), sci.value, steps);
      if !ended {
        return Hangs;
      }
      if r == null {
        return NullAccess;
      }
      answer := Associate(r, an, keyFits, programmed, First(Channels(), sci.value));
    }

    /** The part once the channel is found. */
    method Associate(r: RxSc, an: nat, keyFits: bool, programmed: bool, ghost i: nat) returns (answer: Answer)
      requires Valid() && i < |nodes| && r == nodes[i] && an < MACSEC_MAX_AN
      modifies this`starved, r`sa
      ensures Valid() && |old(Channels()[i]).slots| == MACSEC_MAX_AN
      ensures answer == Code(-ENOMEM) <==> starved > old(starved)
      ensures answer == Code(-ENOMEM) || answer == Code(-EBUSY) ==> Value() == old(Value())
      ensures SlotTaken(old(Value()), i, an) ==> answer == Code(-EBUSY)
      ensures !SlotTaken(old(Value()), i, an) && answer != Code(-ENOMEM) ==>
                && Value() == Occupy(old(Value()), i, an)
                && answer == Code(if !keyFits then -EINVAL else if programmed then 0 else -1)
                && |r.sa| == MACSEC_MAX_AN && r.sa[an] != null && r.sa[an].sc == r
    {
      assert Owned(r, r.sa) && Channels()[i] == r.Value();
      if r.sa[an] != null {
        return Code(-EBUSY);
      }
      var fails: bool := *;
      if fails {
        starved := starved + 1;
        return Code(-ENOMEM);
      }
      TakeSlot(r, an, i);
      if !keyFits {
        return Code(-EINVAL);
      }
      return if programmed then Code(0) else Code(-1);
    }

    lemma SlotsAreSized()
      requires Valid()
      ensures SlotsSized(Channels())
    {
      forall c | c in Channels()
        ensures |c.slots| == MACSEC_MAX_AN
      {
        var i :| 0 <= i < |nodes| && Channels()[i] == c;
        assert Owned(nodes[i], nodes[i].sa);
      }
    }
  }

  lemma FirstAt(list: seq<Channel>, sci: u64, i: nat)
    requires i <= |list| && forall j :: 0 <= j < i ==> list[j].sci != sci
    requires i < |list| ==> list[i].sci == sci
    ensures First(list, sci) == i
  {}

  /** One advance of the cursor settles whether the lookup ever ends. */
  lemma EndsWithin(list: seq<Channel>, sci: u64, steps: nat)
    requires steps > 0
    ensures FindLoop(list, sci, 0, steps) == if NearHead(list, sci) then Done(First(list, sci)) else Running
  {
    if NearHead(list, sci) {
      FindIsFirst(list, sci, steps);
    } else {
      StuckOnSecond(list, sci, steps - 1);
    }
  }
}
