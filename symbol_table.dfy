/** The symbol table: a mutable map from symbol names to addresses, and the
    architecture's predefined symbols that are loaded into it before a run. */
module SymbolTables {
  import opened Wrappers
  import opened Numerals

  class SymbolTable {
    /** The bindings; JavaScript keeps them as the properties of a plain object. */
    var symTable: map<string, nat>

    constructor()
      ensures symTable == map[]
    {
      symTable := map[];
    }

    /** Binds `symbol` to `address`, replacing any earlier binding of it; every
        other symbol keeps its binding. */
    method AddEntry(symbol: string, address: nat)
      modifies this
      ensures symTable == old(symTable)[symbol := address]
      ensures Contains(symbol) && GetAddress(symbol) == Some(address)
      ensures forall s :: s != symbol ==> GetAddress(s) == old(GetAddress(s))
    {
      symTable := symTable[symbol := address];
    }

    predicate Contains(symbol: string)
      reads this
    {
      symbol in symTable
    }

    /** The bound address, or `None` where JavaScript yields `undefined`. */
    function GetAddress(symbol: string): (r: Option<nat>)
      reads this
      ensures r.Some? <==> Contains(symbol)
    {
      if symbol in symTable then Some(symTable[symbol]) else None
    }
  }

  /** The predefined symbols as the source lists them, with `R6` bound to 5. */
  const PreDefinedSymbolsAsWritten: map<string, nat> := map[
    "SP" := 0, "LCL" := 1, "ARG" := 2, "THIS" := 3, "THAT" := 4,
    "SCREEN" := 16384, "KBD" := 24576,
    "R0" := 0, "R1" := 1, "R2" := 2, "R3" := 3, "R4" := 4, "R5" := 5,
    "R6" := 5,
    "R7" := 7, "R8" := 8, "R9" := 9, "R10" := 10, "R11" := 11, "R12" := 12,
    "R13" := 13, "R14" := 14, "R15" := 15
  ]

  /** The predefined symbols with the Hack convention `Rk = k` restored for `R6`;
      this is the table the assembler loads. */
  const PreDefinedSymbols: map<string, nat> := PreDefinedSymbolsAsWritten["R6" := 6]

  /** The register name `Rk`. */
  function Register(k: nat): string
  {
    "R" + DecimalString(k)
  }

  /** The table the source loads makes `R6` an alias of `R5` instead of a
      name for RAM word 6. */
  lemma PreDefinedAsWrittenBindsR6To5()
    ensures var m := PreDefinedSymbolsAsWritten;
      && Register(6) in m && Register(5) in m
      && m[Register(6)] == m[Register(5)] == 5 != 6
  {
    assert Register(5) == "R5" && Register(6) == "R6";
  }

  /** The corrected table: `SP`..`THAT` are 0..4, the devices are at 16384 and
      24576, and every `Rk` for k below 16 is k. */
  lemma PreDefinedAddresses()
    ensures var m := PreDefinedSymbols;
      && m["SP"] == 0 && m["LCL"] == 1 && m["ARG"] == 2 && m["THIS"] == 3 && m["THAT"] == 4
      && m["SCREEN"] == 16384 && m["KBD"] == 24576
      && forall k :: 0 <= k < 16 ==> Register(k) in m && m[Register(k)] == k
  {
    forall k | 0 <= k < 16 ensures Register(k) in PreDefinedSymbols && PreDefinedSymbols[Register(k)] == k {
      RegisterAddress(k);
    }
  }

  lemma RegisterAddress(k: nat)
    requires k < 16
    ensures Register(k) in PreDefinedSymbols && PreDefinedSymbols[Register(k)] == k
  {
    if k < 8 {
      LowRegisterAddress(k);
    } else {
      HighRegisterAddress(k);
    }
  }

  /** `R0`..`R7` are bound to their own numbers. */
  lemma LowRegisterAddress(k: nat)
    requires k < 8
    ensures Register(k) in PreDefinedSymbols && PreDefinedSymbols[Register(k)] == k
  {
    if k == 0 {
      assert Register(0) == "R0";
    } else if k == 1 {
      assert Register(1) == "R1";
    } else if k == 2 {
      assert Register(2) == "R2";
    } else if k == 3 {
      assert Register(3) == "R3";
    } else if k == 4 {
      assert Register(4) == "R4";
    } else if k == 5 {
      assert Register(5) == "R5";
    } else if k == 6 {
      assert Register(6) == "R6";
    } else {
      assert Register(7) == "R7";
    }
  }

  /** `R8`..`R15` are bound to their own numbers. */
  lemma HighRegisterAddress(k: nat)
    requires 8 <= k < 16
    ensures Register(k) in PreDefinedSymbols && PreDefinedSymbols[Register(k)] == k
  {
    if k == 8 {
      assert Register(8) == "R8";
    } else if k == 9 {
      assert Register(9) == "R9";
    } else if k == 10 {
      assert Register(10) == "R10";
    } else if k == 11 {
      assert Register(11) == "R11";
    } else if k == 12 {
      assert Register(12) == "R12";
    } else if k == 13 {
      assert Register(13) == "R13";
    } else if k == 14 {
      assert Register(14) == "R14";
    } else {
      assert Register(15) == "R15";
    }
  }

  /** The correction touches `R6` alone: the same names, the same addresses elsewhere. */
  lemma PreDefinedDiffersOnlyAtR6()
    ensures PreDefinedSymbols.Keys == PreDefinedSymbolsAsWritten.Keys
    ensures forall s :: s in PreDefinedSymbols && s != "R6" ==>
      PreDefinedSymbols[s] == PreDefinedSymbolsAsWritten[s]
  {
  }

  /** The bindings of `p` restricted to the names in `names`. */
  function Restrict(p: map<string, nat>, names: set<string>): (r: map<string, nat>)
    requires names <= p.Keys
    ensures r.Keys == names && forall x :: x in names ==> r[x] == p[x]
  {
    map x | x in names :: p[x]
  }

  /** Adding one more binding of `p` to a table that holds some of them. */
  lemma RestrictGrows(base: map<string, nat>, p: map<string, nat>, names: set<string>, k: string)
    requires names <= p.Keys && k in p
    ensures (base + Restrict(p, names))[k := p[k]] == base + Restrict(p, names + {k})
  {
  }

  /** `loadPreDefinedSymbols`: adds every predefined pair to `table`, leaving the
      bindings of other names as they were. The pairs have distinct names, so the
      order in which they are added does not matter. */
  method LoadPreDefinedSymbols(table: SymbolTable)
    modifies table
    ensures table.symTable == old(table.symTable) + PreDefinedSymbols
  {
    ghost var base := table.symTable;
    var remaining := PreDefinedSymbols.Keys;
    while remaining != {}
      invariant remaining <= PreDefinedSymbols.Keys
      invariant table.symTable == base + Restrict(PreDefinedSymbols, PreDefinedSymbols.Keys - remaining)
      decreases remaining
    {
      var k :| k in remaining;
      RestrictGrows(base, PreDefinedSymbols, PreDefinedSymbols.Keys - remaining, k);
      table.AddEntry(k, PreDefinedSymbols[k]);
      assert PreDefinedSymbols.Keys - remaining + {k} == PreDefinedSymbols.Keys - (remaining - {k});
      remaining := remaining - {k};
    }
    assert Restrict(PreDefinedSymbols, PreDefinedSymbols.Keys) == PreDefinedSymbols;
  }
}
