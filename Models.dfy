/** The execution modes of an invocation (`Mode`, `EXECUTION_MODES`) and the
    table from a mode's value to its display label (`EXECUTION_MODE_MAP`).
    A `Mode` is a datatype value, so like the frozen dataclass it cannot be
    changed after construction. */
module Models {
  import opened Basics
  import opened PyDict

  // The label field is called `displayLabel` because `label` is a Dafny keyword.
  datatype Mode = Mode(value: string, displayLabel: string)

  const COLD: Mode := Mode("cold", "Cold")
  const PRE_WARMED: Mode := Mode("pre-warmed", "Pre-warmed")
  const WARMED: Mode := Mode("warmed", "Warmed")

  /** The list the mode table is built from, in its order. */
  const ALL_MODES: seq<Mode> := [COLD, PRE_WARMED, WARMED]

  /** `{mode.value: mode.displayLabel for mode in modes}`. */
  function ModeTable(modes: seq<Mode>): (d: Dict<string, string>)
    ensures d.Valid()
    ensures forall v :: v in d.entries <==> exists m :: m in modes && m.value == v
  {
    if modes == [] then Empty()
    else
      var last := modes[|modes| - 1];
      assert modes == modes[..|modes| - 1] + [last];
      ModeTable(modes[..|modes| - 1]).Put(last.value, last.displayLabel)
  }

  /** `EXECUTION_MODE_MAP`. */
  function ExecutionModeMap(): Dict<string, string> {
    ModeTable(ALL_MODES)
  }

  /** The table holds exactly cold, pre-warmed and warmed, in that order,
      each mapped to its label. */
  lemma {:induction false} ExecutionModeMapContents()
    ensures ExecutionModeMap().order == ["cold", "pre-warmed", "warmed"]
    ensures ExecutionModeMap().entries == map["cold" := "Cold", "pre-warmed" := "Pre-warmed", "warmed" := "Warmed"]
  {
    assert ALL_MODES[..2] == [COLD, PRE_WARMED];
    assert ALL_MODES[..2][..1] == [COLD];
    assert [COLD][..0] == [];
    assert [COLD, PRE_WARMED][..1] == [COLD];
    var t0: Dict<string, string> := ModeTable([]);
    assert t0 == Empty();
    var t1 := ModeTable([COLD]);
    assert t1 == t0.Put(COLD.value, COLD.displayLabel);
    var t2 := ModeTable([COLD, PRE_WARMED]);
    assert t2 == t1.Put("pre-warmed", "Pre-warmed");
    assert "pre-warmed" != "cold";
    assert "warmed" != "cold" && "warmed" != "pre-warmed";
  }

  /** Mode values are pairwise distinct, and so are labels. */
  lemma ModesDistinct()
    ensures forall i, j :: 0 <= i < j < |ALL_MODES| ==>
      ALL_MODES[i].value != ALL_MODES[j].value && ALL_MODES[i].displayLabel != ALL_MODES[j].displayLabel
  {
    assert "cold" != "pre-warmed" && "cold" != "warmed" && "pre-warmed" != "warmed";
    assert "Cold" != "Pre-warmed" && "Cold" != "Warmed";
    assert "Pre-warmed"[0] != "Warmed"[0];
  }

  /** Each mode's value maps to that mode's label. */
  lemma ModeTableLookup()
    ensures forall m :: m in ALL_MODES ==> ExecutionModeMap().Get(m.value) == Some(m.displayLabel)
  {
    ExecutionModeMapContents();
  }

  /** The table is injective: distinct values have distinct labels. */
  lemma ModeTableInjective()
    ensures forall a, b :: a in ExecutionModeMap().entries && b in ExecutionModeMap().entries && a != b ==>
      ExecutionModeMap().entries[a] != ExecutionModeMap().entries[b]
  {
    ExecutionModeMapContents();
    var e := ExecutionModeMap().entries;
    assert e.Keys == {"cold", "pre-warmed", "warmed"};
    assert "Cold" != "Pre-warmed" && "Cold" != "Warmed";
    assert "Pre-warmed"[0] != "Warmed"[0];
  }

  /** `EXECUTION_MODE_MAP.get(mode, mode)`: the label of a known mode value;
      any other string passes through unchanged. */
  function ModeLabel(mode: string): (shown: string)
    ensures mode == "cold" ==> shown == "Cold"
    ensures mode == "pre-warmed" ==> shown == "Pre-warmed"
    ensures mode == "warmed" ==> shown == "Warmed"
    ensures mode != "cold" && mode != "pre-warmed" && mode != "warmed" ==> shown == mode
  {
    ExecutionModeMapContents();
    ExecutionModeMap().Get(mode).GetOr(mode)
  }
}
