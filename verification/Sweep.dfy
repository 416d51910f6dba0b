/** The download test's sweep over MDIO clock dividers and clauses: fifty downloads with each. */
module Sweep {
  import opened MachineInts

  const PER_DIVIDER := 50
  const DIVIDERS := 6

  /** What the bus runs with during one download. */
  datatype Setting = Setting(divider: u32, reg204: u32, clause22: bool)

  function Shifted(divider: u32): u32 {
    divider * 0x8_0000 % W32
  }

  /** The setting of iteration `i`, counted from 0, of a sweep started with a divider and a clause.  A start
      divider above 4 is never left. */
  function SettingOf(start: u32, given: bool, i: nat): Setting {
    var n := start + i / PER_DIVIDER;
    if start > 4 then Setting(start, Shifted(start), given)
    else Setting(n % DIVIDERS, n % DIVIDERS * 0x8_0000, (n < DIVIDERS) == given)
  }

  class Tester {
    /** Which PHY addresses are accessed by Clause 22: the bits of register 0x220. */
    var reg220: set<nat>
    /** The clock divider register. */
    var reg204: u32
    /** The settings the downloads ran with. */
    var runs: seq<Setting>
    const phyAddr: nat
    const clause: u32
    var mdc_clk_div: u32
    var negate_cl: bool

    constructor (phyAddr: nat, clause: u32, divider: u32)
      ensures this.phyAddr == phyAddr && this.clause == clause
      ensures mdc_clk_div == divider && !negate_cl && runs == []
    {
      this.phyAddr := phyAddr;
      this.clause := clause;
      mdc_clk_div := divider;
      negate_cl := false;
      runs := [];
      reg220 := *;
      reg204 := *;
    }

    function Given(): bool {
      clause % 2 == 1
    }

    /** The state before iteration `i`. */
    ghost predicate At(start: u32, i: nat)
      reads this
    {
      && SettingOf(start, Given(), i) == Setting(mdc_clk_div, reg204, phyAddr in reg220)
      && negate_cl == (start <= 4 && start + i / PER_DIVIDER >= 5)
    }

    method Set(clause22: bool, word: u32)
      modifies this`reg220, this`reg204
      ensures reg220 == (if clause22 then {phyAddr} else {}) && reg204 == word
    {
      reg220 := if clause22 then {phyAddr} else {};
      reg204 := word;
    }

    /** The part at the end of iteration k that changes divider and clause. */
    method Change(k: nat, ghost start: u32)
      requires k > 0 && At(start, k - 1)
      modifies this`reg220, this`reg204, this`mdc_clk_div, this`negate_cl
      ensures At(start, k)
    {
      ghost var n := start + (k - 1) / PER_DIVIDER;
      Turn(k);
      SixOn(n);
      if k % PER_DIVIDER == 0 && mdc_clk_div == 0 && !negate_cl {
        mdc_clk_div := 1;
        Set(clause % 2 == 1, 0x080000);
      } else if k % PER_DIVIDER == 0 && mdc_clk_div == 1 && !negate_cl {
        mdc_clk_div := 2;
        Set(clause % 2 == 1, 0x100000);
      } else if k % PER_DIVIDER == 0 && mdc_clk_div == 2 && !negate_cl {
        mdc_clk_div := 3;
        Set(clause % 2 == 1, 0x180000);
      } else if k % PER_DIVIDER == 0 && mdc_clk_div == 3 && !negate_cl {
        mdc_clk_div := 4;
        Set(clause % 2 == 1, 0x200000);
      } else if k % PER_DIVIDER == 0 && mdc_clk_div == 4 && !negate_cl {
        negate_cl := true;
        mdc_clk_div := 5;
        Set(clause % 2 == 1, 0x280000);
      } else if k % PER_DIVIDER == 0 && mdc_clk_div == 5 && negate_cl {
        mdc_clk_div := 0;
        Set(clause % 2 != 1, 0x0);
      } else if k % PER_DIVIDER == 0 && mdc_clk_div == 0 && negate_cl {
        mdc_clk_div := 1;
        Set(clause % 2 != 1, 0x080000);
      } else if k % PER_DIVIDER == 0 && mdc_clk_div == 1 && negate_cl {
        mdc_clk_div := 2;
        Set(clause % 2 != 1, 0x100000);
      } else if k % PER_DIVIDER == 0 && mdc_clk_div == 2 && negate_cl {
        mdc_clk_div := 3;
        Set(clause % 2 != 1, 0x180000);
      } else if k % PER_DIVIDER == 0 && mdc_clk_div == 3 && negate_cl {
        mdc_clk_div := 4;
        Set(clause % 2 != 1, 0x200000);
      } else if k % PER_DIVIDER == 0 && mdc_clk_div == 4 && negate_cl {
        mdc_clk_div := 5;
        Set(clause % 2 != 1, 0x280000);
      }
    }

    /** The sweep, when no iteration aborts it.  The download itself does not touch the two registers. */
    method Run(total: nat)
      requires runs == [] && !negate_cl
      modifies this
      ensures |runs| == total
      ensures forall i :: 0 <= i < total ==> runs[i] == SettingOf(old(mdc_clk_div), Given(), i)
      ensures old(mdc_clk_div) <= 4 ==> forall i :: 0 <= i < total ==>
                && runs[i].divider == (old(mdc_clk_div) + i / 50) % 6
                && runs[i].reg204 == runs[i].divider * 0x8_0000
                && (runs[i].clause22 <==> (clause % 2 == 1) == (old(mdc_clk_div) + i / 50 < 6))
      ensures total > 0 ==> reg220 == {} && reg204 == 0
    {
      ghost var start := mdc_clk_div;
      reg204 := mdc_clk_div * 0x8_0000 % W32;
      reg220 := if clause % 2 == 1 then reg220 + {phyAddr} else reg220 - {phyAddr};
      var k := 0;
      while k < total
        invariant k == |runs| <= total && (k < total || total == 0) && At(start, k)
        invariant forall i :: 0 <= i < k ==> runs[i] == SettingOf(start, Given(), i)
      {
        k := k + 1;
        runs := runs + [Setting(mdc_clk_div, reg204, phyAddr in reg220)];
        Change(k, start);
        if k == total {
          reg220 := {};
          reg204 := 0;
          break;
        }
      }
    }
  }

  lemma Turn(k: nat)
    requires k > 0
    ensures k / PER_DIVIDER == (k - 1) / PER_DIVIDER + if k % PER_DIVIDER == 0 then 1 else 0
  {}

  lemma SixOn(n: nat)
    ensures (n + 1) % DIVIDERS == if n % DIVIDERS == 5 then 0 else n % DIVIDERS + 1
    ensures n < 5 ==> n % DIVIDERS == n
  {}

  // ---- How often each setting is used ----

  /** How many of the first `total` iterations run with a setting. */
  function Uses(start: u32, given: bool, total: nat, s: Setting): nat {
    if total == 0 then 0
    else Uses(start, given, total - 1, s) + if SettingOf(start, given, total - 1) == s then 1 else 0
  }

  /** The n-th of the twelve settings in the order a full sweep visits them. */
  function Visited(given: bool, n: nat): Setting
    requires n < 2 * DIVIDERS
  {
    Setting(n % DIVIDERS, n % DIVIDERS * 0x8_0000, (n < DIVIDERS) == given)
  }

  lemma {:induction false} UsesInBlock(given: bool, block: nat, m: nat, s: Setting)
    requires block < 2 * DIVIDERS && m <= PER_DIVIDER
    ensures Uses(0, given, PER_DIVIDER * block + m, s)
         == Uses(0, given, PER_DIVIDER * block, s) + if s == Visited(given, block) then m else 0
  {
    if m > 0 {
      UsesInBlock(given, block, m - 1, s);
      InBlock(block, m - 1);
    }
  }

  lemma InBlock(block: nat, m: nat)
    requires m < PER_DIVIDER
    ensures (PER_DIVIDER * block + m) / PER_DIVIDER == block
  {}

  lemma {:induction false} UsesAfterBlocks(given: bool, blocks: nat, n: nat)
    requires blocks <= 2 * DIVIDERS && n < 2 * DIVIDERS
    ensures Uses(0, given, PER_DIVIDER * blocks, Visited(given, n)) == if n < blocks then PER_DIVIDER else 0
  {
    if blocks > 0 {
      UsesAfterBlocks(given, blocks - 1, n);
      UsesInBlock(given, blocks - 1, PER_DIVIDER, Visited(given, n));
      Distinct(given, n, blocks - 1);
    }
  }

  lemma Distinct(given: bool, n: nat, m: nat)
    requires n < 2 * DIVIDERS && m < 2 * DIVIDERS
    ensures Visited(given, n) == Visited(given, m) <==> n == m
  {}

  lemma {:induction false} RunsAreUses(runs: seq<Setting>, given: bool, s: Setting)
    requires forall i :: 0 <= i < |runs| ==> runs[i] == SettingOf(0, given, i)
    ensures multiset(runs)[s] == Uses(0, given, |runs|, s)
  {
    if runs != [] {
      var m := |runs| - 1;
      assert runs == runs[..m] + [runs[m]];
      RunsAreUses(runs[..m], given, s);
    }
  }

  /** The default sweep, 600 downloads from divider 0, uses each of the six dividers with each of the two
      clauses exactly 50 times. */
  lemma FullSweep(runs: seq<Setting>, given: bool, divider: u32, clause22: bool)
    requires |runs| == 600 && forall i :: 0 <= i < |runs| ==> runs[i] == SettingOf(0, given, i)
    requires divider < DIVIDERS
    ensures multiset(runs)[Setting(divider, divider * 0x8_0000, clause22)] == 50
  {
    RunsAreUses(runs, given, Setting(divider, divider * 0x8_0000, clause22));
    var n := if clause22 == given then divider else divider + DIVIDERS;
    assert Visited(given, n) == Setting(divider, divider * 0x8_0000, clause22);
    UsesAfterBlocks(given, 12, n);
  }

  /** Started elsewhere the sweep is not full: the dividers below the start never meet the given clause,
      and divider 5, which the usage text allows, is the only one used when it is the start. */
  lemma SkippedSettings(start: u32, given: bool, i: nat)
    ensures 0 < start <= 4 ==> var s := SettingOf(start, given, i); s.divider < start ==> s.clause22 != given
    ensures start > 4 ==> SettingOf(start, given, i).divider == start && SettingOf(start, given, i).clause22 == given
  {
    var n := start + i / PER_DIVIDER;
    SmallModulo(n);
  }

  lemma SmallModulo(n: nat)
    ensures n < DIVIDERS ==> n % DIVIDERS == n
  {}
}
