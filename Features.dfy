/** The feature catalog's entries and their resolution against the install
    options. */
module Features {
  import opened Base

  /** One patch unit: the absolute address where the patch begins and its
      bytes spelled as a hexadecimal string. */
  datatype Injection = Injection(offset: U32, payload: string)

  /** A named, toggleable set of injections. Only `enabled` ever changes, and
      only through `Enable`. */
  datatype Feature = Feature(
    name: string,
    optional: bool,
    affectsSync: bool,
    enabled: bool,
    patches: seq<Injection>)

  /** The install options: one switch per configurable feature. */
  datatype InstallOptions = InstallOptions(
    widescreenCommandBar: bool,
    windowedMode: bool,
    upnp: bool,
    alternateRed: bool,
    alternatePurple: bool,
    alternateGray: bool,
    extendPopulationCaps: bool,
    replaceSnowWithGrass: bool,
    waterAnimation: bool,
    precisionScrolling: bool,
    shiftGroupAppend: bool,
    keydownHotkeys: bool,
    savegameFormat: bool,
    multipleQueue: bool,
    originalPatrolDelay: bool,
    waterMovement: bool,
    weatherSystem: bool,
    customTerrains: bool,
    terrainUnderwater: bool,
    numericAgeDisplay: bool)

  /** `Feature::enable`: toggling a non-optional feature aborts, whatever the
      requested value; otherwise only `enabled` changes. */
  function Enable(f: Feature, enabled: bool): (r: Result<Feature, Error>)
    ensures r.Failure? <==> !f.optional
    ensures r.Failure? ==> r.error == IllegalToggle(f.name)
    ensures r.Success? ==> r.value.enabled == enabled
    ensures r.Success? ==>
      r.value.name == f.name && r.value.optional == f.optional &&
      r.value.affectsSync == f.affectsSync && r.value.patches == f.patches
  {
    if f.optional then Success(f.(enabled := enabled)) else Failure(IllegalToggle(f.name))
  }

  /** The switch that decides a feature, by name: `Some` of the value the
      feature gets (negated for the four "Disable ..." features), `None` for a
      name that has no switch. */
  function Toggle(name: string, o: InstallOptions): (r: Option<bool>)
    ensures r.None? ==> forall i :: 0 <= i < |SwitchTable| ==> SwitchTable[i].feature != name
  {
    match name
    case "Widescreen interface style" => Some(o.widescreenCommandBar)
    case "Windowed mode support" => Some(o.windowedMode)
    case "Port forwarding support" => Some(o.upnp)
    case "Darken mini-map red" => Some(o.alternateRed)
    case "Darken mini-map purple" => Some(o.alternatePurple)
    case "Darken mini-map grey" => Some(o.alternateGray)
    case "Population caps to 1000" => Some(o.extendPopulationCaps)
    case "Snow/ice terrain removal" => Some(o.replaceSnowWithGrass)
    case "Enable water animation" => Some(o.waterAnimation)
    case "Precision scrolling system" => Some(o.precisionScrolling)
    case "Shift group appending" => Some(o.shiftGroupAppend)
    case "Keydown object hotkeys" => Some(o.keydownHotkeys)
    case "New save filename format" => Some(o.savegameFormat)
    case "Multiple building queue" => Some(o.multipleQueue)
    case "Original patrol default" => Some(o.originalPatrolDelay)
    case "Disable water movement" => Some(!o.waterMovement)
    case "Disable weather system" => Some(!o.weatherSystem)
    case "Disable custom terrains" => Some(!o.customTerrains)
    case "Disable terrain underwater" => Some(!o.terrainUnderwater)
    case "Numeric age display" => Some(o.numericAgeDisplay)
    case _ => None
  }

  /** The value `configure_features` passes to `enable`: the switch's value,
      or the feature's own current state when no switch names it. */
  function RequestedState(f: Feature, o: InstallOptions): (r: bool)
    ensures forall i :: 0 <= i < |SwitchTable| && SwitchTable[i].feature == f.name ==>
      r == SwitchValue(SwitchTable[i], o)
    ensures (forall i :: 0 <= i < |SwitchTable| ==> SwitchTable[i].feature != f.name) ==> r == f.enabled
  {
    ToggleFollowsTable(f.name, o);
    ToggleAtEveryRow(o);
    match Toggle(f.name, o)
    case Some(v) => v
    case None => f.enabled
  }

  predicate AllOptional(catalog: seq<Feature>) {
    forall i :: 0 <= i < |catalog| ==> catalog[i].optional
  }

  /** The position of the first non-optional feature, or the catalog's
      length when every feature is optional. */
  function FirstNonOptional(catalog: seq<Feature>): (i: nat)
    ensures i <= |catalog|
    ensures AllOptional(catalog[..i])
    ensures i < |catalog| <==> !AllOptional(catalog)
    ensures i < |catalog| ==> !catalog[i].optional
  {
    if catalog == [] || !catalog[0].optional then 0
    else
      var i := FirstNonOptional(catalog[1..]);
      assert catalog[..i + 1] == [catalog[0]] + catalog[1..][..i];
      i + 1
  }

  /** `configure_features`: a copy of every catalog feature, in catalog order,
      with `enable` applied to its requested state. Because `enable` is called
      for every feature, including those no switch names, the first
      non-optional feature of the catalog aborts the whole resolution. */
  function ConfigureFeatures(catalog: seq<Feature>, o: InstallOptions): (r: Result<seq<Feature>, Error>)
    ensures r.Success? <==> AllOptional(catalog)
    ensures r.Success? ==> |r.value| == |catalog|
    ensures r.Success? ==> forall i :: 0 <= i < |catalog| ==>
      r.value[i] == catalog[i].(enabled := RequestedState(catalog[i], o))
    ensures r.Failure? ==> r.error == IllegalToggle(catalog[FirstNonOptional(catalog)].name)
  {
    if catalog == [] then Success([])
    else
      match Enable(catalog[0], RequestedState(catalog[0], o))
      case Failure(e) =>
        Failure(e)
      case Success(f) =>
        match ConfigureFeatures(catalog[1..], o)
        case Failure(e) =>
          Failure(e)
        case Success(rest) => Success([f] + rest)
  }

  // ----- an independent statement of the switch table -----

  /** How a switch acts on its feature. */
  datatype Effect = Direct | Inverted

  /** The option fields, as values, so that the table below can name them. */
  datatype OptionField =
    | WidescreenCommandBar | WindowedMode | Upnp | AlternateRed | AlternatePurple
    | AlternateGray | ExtendPopulationCaps | ReplaceSnowWithGrass | WaterAnimation
    | PrecisionScrolling | ShiftGroupAppend | KeydownHotkeys | SavegameFormat
    | MultipleQueue | OriginalPatrolDelay | WaterMovement | WeatherSystem
    | CustomTerrains | TerrainUnderwater | NumericAgeDisplay

  function OptionValue(o: InstallOptions, field: OptionField): bool {
    match field
    case WidescreenCommandBar => o.widescreenCommandBar
    case WindowedMode => o.windowedMode
    case Upnp => o.upnp
    case AlternateRed => o.alternateRed
    case AlternatePurple => o.alternatePurple
    case AlternateGray => o.alternateGray
    case ExtendPopulationCaps => o.extendPopulationCaps
    case ReplaceSnowWithGrass => o.replaceSnowWithGrass
    case WaterAnimation => o.waterAnimation
    case PrecisionScrolling => o.precisionScrolling
    case ShiftGroupAppend => o.shiftGroupAppend
    case KeydownHotkeys => o.keydownHotkeys
    case SavegameFormat => o.savegameFormat
    case MultipleQueue => o.multipleQueue
    case OriginalPatrolDelay => o.originalPatrolDelay
    case WaterMovement => o.waterMovement
    case WeatherSystem => o.weatherSystem
    case CustomTerrains => o.customTerrains
    case TerrainUnderwater => o.terrainUnderwater
    case NumericAgeDisplay => o.numericAgeDisplay
  }

  datatype Switch = Switch(feature: string, field: OptionField, effect: Effect)

  /** The name -> (option field, effect) table, one row per switch. */
  const SwitchTable: seq<Switch> := [
    Switch("Widescreen interface style", WidescreenCommandBar, Direct),
    Switch("Windowed mode support", WindowedMode, Direct),
    Switch("Port forwarding support", Upnp, Direct),
    Switch("Darken mini-map red", AlternateRed, Direct),
    Switch("Darken mini-map purple", AlternatePurple, Direct),
    Switch("Darken mini-map grey", AlternateGray, Direct),
    Switch("Population caps to 1000", ExtendPopulationCaps, Direct),
    Switch("Snow/ice terrain removal", ReplaceSnowWithGrass, Direct),
    Switch("Enable water animation", WaterAnimation, Direct),
    Switch("Precision scrolling system", PrecisionScrolling, Direct),
    Switch("Shift group appending", ShiftGroupAppend, Direct),
    Switch("Keydown object hotkeys", KeydownHotkeys, Direct),
    Switch("New save filename format", SavegameFormat, Direct),
    Switch("Multiple building queue", MultipleQueue, Direct),
    Switch("Original patrol default", OriginalPatrolDelay, Direct),
    Switch("Disable water movement", WaterMovement, Inverted),
    Switch("Disable weather system", WeatherSystem, Inverted),
    Switch("Disable custom terrains", CustomTerrains, Inverted),
    Switch("Disable terrain underwater", TerrainUnderwater, Inverted),
    Switch("Numeric age display", NumericAgeDisplay, Direct)
  ]

  /** A feature name of the form "Disable ...". */
  predicate IsDisableName(name: string) {
    |name| >= 8 && name[..8] == "Disable "
  }

  /** The value a table row gives its feature. */
  function SwitchValue(s: Switch, o: InstallOptions): bool {
    if s.effect == Inverted then !OptionValue(o, s.field) else OptionValue(o, s.field)
  }

  /** Look-up of a feature name in a switch table: the first row naming it. */
  function Lookup(table: seq<Switch>, name: string, o: InstallOptions): (r: Option<bool>)
    ensures r.None? <==> forall i :: 0 <= i < |table| ==> table[i].feature != name
    ensures r.Some? ==>
      exists i :: 0 <= i < |table| && table[i].feature == name &&
        r.value == SwitchValue(table[i], o)
  {
    if table == [] then None
    else if table[0].feature == name then Some(SwitchValue(table[0], o))
    else
      var r := Lookup(table[1..], name, o);
      assert forall i :: 1 <= i < |table| ==> table[i] == table[1..][i - 1];
      r
  }

  /** The switch table has twenty rows, and exactly the rows whose feature
      name starts with "Disable " are inverted. */
  lemma SwitchTableShape()
    ensures |SwitchTable| == 20
    ensures forall i :: 0 <= i < |SwitchTable| ==>
      (SwitchTable[i].effect == Inverted <==> IsDisableName(SwitchTable[i].feature))
  {
    forall i | 0 <= i < |SwitchTable|
      ensures SwitchTable[i].effect == Inverted <==> IsDisableName(SwitchTable[i].feature)
    {
      var name := SwitchTable[i].feature;
      if 15 <= i < 19 {
        assert name[..8] == "Disable ";
      } else {
        assert name[0] != 'D' || name[1] != 'i';
        assert |name| >= 8 ==> name[..8][0] == name[0] && name[..8][1] == name[1];
      }
    }
  }

  // Rows are checked two at a time: the name comparisons of a larger group
  // make one proof obligation too costly for the solver.

  lemma ToggleAtRows0And1(i: nat, o: InstallOptions)
    requires i == 0 || i == 1
    ensures Toggle(SwitchTable[i].feature, o) == Some(SwitchValue(SwitchTable[i], o))
  {
  }

  lemma ToggleAtRows2And3(i: nat, o: InstallOptions)
    requires i == 2 || i == 3
    ensures Toggle(SwitchTable[i].feature, o) == Some(SwitchValue(SwitchTable[i], o))
  {
  }

  lemma ToggleAtRows4And5(i: nat, o: InstallOptions)
    requires i == 4 || i == 5
    ensures Toggle(SwitchTable[i].feature, o) == Some(SwitchValue(SwitchTable[i], o))
  {
  }

  lemma ToggleAtRows6And7(i: nat, o: InstallOptions)
    requires i == 6 || i == 7
    ensures Toggle(SwitchTable[i].feature, o) == Some(SwitchValue(SwitchTable[i], o))
  {
  }

  lemma ToggleAtRows8And9(i: nat, o: InstallOptions)
    requires i == 8 || i == 9
    ensures Toggle(SwitchTable[i].feature, o) == Some(SwitchValue(SwitchTable[i], o))
  {
  }

  lemma ToggleAtRows10And11(i: nat, o: InstallOptions)
    requires i == 10 || i == 11
    ensures Toggle(SwitchTable[i].feature, o) == Some(SwitchValue(SwitchTable[i], o))
  {
  }

  lemma ToggleAtRows12And13(i: nat, o: InstallOptions)
    requires i == 12 || i == 13
    ensures Toggle(SwitchTable[i].feature, o) == Some(SwitchValue(SwitchTable[i], o))
  {
  }

  lemma ToggleAtRows14And15(i: nat, o: InstallOptions)
    requires i == 14 || i == 15
    ensures Toggle(SwitchTable[i].feature, o) == Some(SwitchValue(SwitchTable[i], o))
  {
  }

  lemma ToggleAtRows16And17(i: nat, o: InstallOptions)
    requires i == 16 || i == 17
    ensures Toggle(SwitchTable[i].feature, o) == Some(SwitchValue(SwitchTable[i], o))
  {
  }

  lemma ToggleAtRows18And19(i: nat, o: InstallOptions)
    requires i == 18 || i == 19
    ensures Toggle(SwitchTable[i].feature, o) == Some(SwitchValue(SwitchTable[i], o))
  {
  }

  /** Every row's name is matched to that row's switch. */
  lemma ToggleAtRow(i: nat, o: InstallOptions)
    requires i < |SwitchTable|
    ensures Toggle(SwitchTable[i].feature, o) == Some(SwitchValue(SwitchTable[i], o))
  {
    if i < 2 { ToggleAtRows0And1(i, o); }
    else if i < 4 { ToggleAtRows2And3(i, o); }
    else if i < 6 { ToggleAtRows4And5(i, o); }
    else if i < 8 { ToggleAtRows6And7(i, o); }
    else if i < 10 { ToggleAtRows8And9(i, o); }
    else if i < 12 { ToggleAtRows10And11(i, o); }
    else if i < 14 { ToggleAtRows12And13(i, o); }
    else if i < 16 { ToggleAtRows14And15(i, o); }
    else if i < 18 { ToggleAtRows16And17(i, o); }
    else { ToggleAtRows18And19(i, o); }
  }

  lemma ToggleAtEveryRow(o: InstallOptions)
    ensures forall i :: 0 <= i < |SwitchTable| ==>
      Toggle(SwitchTable[i].feature, o) == Some(SwitchValue(SwitchTable[i], o))
  {
    forall i | 0 <= i < |SwitchTable|
      ensures Toggle(SwitchTable[i].feature, o) == Some(SwitchValue(SwitchTable[i], o))
    {
      ToggleAtRow(i, o);
    }
  }

  /** A name no row carries has no switch. */
  lemma ToggleOffTable(name: string, o: InstallOptions)
    requires forall i :: 0 <= i < |SwitchTable| ==> SwitchTable[i].feature != name
    ensures Toggle(name, o).None?
  {
    var t := SwitchTable;
    assert t[0].feature != name && t[1].feature != name && t[2].feature != name && t[3].feature != name;
    assert t[4].feature != name && t[5].feature != name && t[6].feature != name && t[7].feature != name;
    assert t[8].feature != name && t[9].feature != name && t[10].feature != name && t[11].feature != name;
    assert t[12].feature != name && t[13].feature != name && t[14].feature != name && t[15].feature != name;
    assert t[16].feature != name && t[17].feature != name && t[18].feature != name && t[19].feature != name;
  }

  /** The name match of `configure_features` agrees with the table. */
  lemma ToggleFollowsTable(name: string, o: InstallOptions)
    ensures Toggle(name, o) == Lookup(SwitchTable, name, o)
  {
    var r := Lookup(SwitchTable, name, o);
    if r.Some? {
      var i :| 0 <= i < |SwitchTable| && SwitchTable[i].feature == name && r.value == SwitchValue(SwitchTable[i], o);
      ToggleAtRow(i, o);
    } else {
      ToggleOffTable(name, o);
    }
  }

  /** Resolution in terms of the table: a named feature gets its switch's
      value (negated for an inverted row), any other keeps its catalog state,
      and names, flags and injections are carried over unchanged. */
  lemma ConfiguredByTable(catalog: seq<Feature>, o: InstallOptions, i: nat)
    requires AllOptional(catalog) && i < |catalog|
    ensures ConfigureFeatures(catalog, o).Success?
    ensures var f := ConfigureFeatures(catalog, o).value[i];
      f.name == catalog[i].name && f.optional && f.affectsSync == catalog[i].affectsSync
      && f.patches == catalog[i].patches
      && f.enabled == match Lookup(SwitchTable, catalog[i].name, o)
                      case Some(v) => v
                      case None => catalog[i].enabled
  {
  }
}
