/** The generator object: the entity name, generics and ports `parse_vhdl_file` accumulates,
    and `generate_testbench`, which reads them back out as a testbench. */
module Generator {
  import opened Text
  import opened Patterns
  import opened Extract
  import opened Emit

  class VhdlTestbenchGenerator {
    var entityName: string
    var ports: seq<Port>
    var generics: seq<Generic>

    /** Every record held has the shape a parse gives it. */
    ghost predicate Valid()
      reads this
    {
      (forall p :: p in ports ==> ValidPort(p)) && (forall g :: g in generics ==> ValidGeneric(g))
    }

    /** A generator with no entity name, no ports and no generics. */
    constructor ()
      ensures entityName == "" && ports == [] && generics == []
      ensures Valid()
    {
      entityName := "";
      ports := [];
      generics := [];
    }

    /** `parse_vhdl_file`: nothing is reset. The entity name is replaced only when an entity
        declaration is found, and the generics and ports found are appended, in the order
        they occur, to those already held. */
    method ParseVhdlFile(content: string)
      modifies this
      ensures entityName == (if EntityNameOf(content).Some? then EntityNameOf(content).value else old(entityName))
      ensures generics == old(generics) + GenericsOf(content)
      ensures ports == old(ports) + PortsOf(content)
      ensures old(Valid()) ==> Valid()
    {
      var entityMatch := SearchText(EntityDecl, content);
      if entityMatch.Some? {
        entityName := Group(content, entityMatch.value, 0);
      }
      var genericSection := SearchText(GenericClause, content);
      if genericSection.Some? {
        AddGenerics(Group(content, genericSection.value, 0));
      }
      var portSection := SearchText(PortClause, content);
      if portSection.Some? {
        AddPorts(Group(content, portSection.value, 0));
      }
      RecordsOfSearch(content);
      GenericsOfAreValid(content);
      PortsOfAreValid(content);
    }

    /** The search for the generic items of a generic clause body and the loop over them. */
    method AddGenerics(genericList: string)
      modifies this
      ensures generics == old(generics) + GenericsIn(genericList, Matches(GenericItem, genericList))
      ensures entityName == old(entityName) && ports == old(ports)
    {
      var items := Matches(GenericItem, genericList);
      AppendGenerics(genericList, items);
    }

    /** One generic record per item match, appended in order. */
    method AppendGenerics(genericList: string, items: seq<Match>)
      requires forall k :: 0 <= k < |items| ==> WellFormed(genericList, items[k], 3)
      modifies this
      ensures generics == old(generics) + GenericsIn(genericList, items)
      ensures entityName == old(entityName) && ports == old(ports)
    {
      for k := 0 to |items|
        invariant generics == old(generics) + GenericsIn(genericList, items[..k])
        invariant entityName == old(entityName) && ports == old(ports)
      {
        GenericsInExtend(old(generics), genericList, items, k);
        generics := generics + [GenericOf(genericList, items[k])];
      }
      assert items[..|items|] == items;
    }

    /** The search for the port items of a port clause body and the loop over them. */
    method AddPorts(portList: string)
      modifies this
      ensures ports == old(ports) + PortsIn(portList, Matches(PortItem, portList))
      ensures entityName == old(entityName) && generics == old(generics)
    {
      var items := Matches(PortItem, portList);
      AppendPorts(portList, items);
    }

    /** One port record per item match, appended in order. */
    method AppendPorts(portList: string, items: seq<Match>)
      requires forall k :: 0 <= k < |items| ==> WellFormed(portList, items[k], 3)
      modifies this
      ensures ports == old(ports) + PortsIn(portList, items)
      ensures entityName == old(entityName) && generics == old(generics)
    {
      for k := 0 to |items|
        invariant ports == old(ports) + PortsIn(portList, items[..k])
        invariant entityName == old(entityName) && generics == old(generics)
      {
        PortsInExtend(old(ports), portList, items, k);
        ports := ports + [PortOf(portList, items[k])];
      }
      assert items[..|items|] == items;
    }

    /** Valid records survive the emitter: the component's generic and port lines, and the
        signal lines, read back to exactly the generics and ports held, in order. */
    lemma HeldRecordsReadBack()
      requires Valid()
      ensures generics != [] ==> ReadGenericDecls(GenericDecls(generics)) == Some(generics)
      ensures ports != [] ==> ReadPortDecls(PortDecls(ports)) == Some(ports)
      ensures ReadSignals(SignalDecls(ports)) == Some(NamesAndTypes(ports))
    {
      if generics != [] {
        GenericDeclsReadBack(generics);
      }
      if ports != [] {
        PortDeclsReadBack(ports);
      }
      SignalsReadBack(ports);
    }

    /** `generate_testbench`: the testbench for the entity name, generics and ports held. */
    method GenerateTestbench(timestamp: string) returns (testbench: string)
      ensures testbench == Testbench(entityName, generics, ports, timestamp)
    {
      testbench := Header(entityName, timestamp);
      var genericSection := GenericClauseText(generics);
      testbench := testbench + genericSection;
      var portSection := PortClauseText(ports);
      testbench := testbench + portSection;
      var signalSection := SignalText(ports);
      testbench := testbench + signalSection;
      var hasClock := AnyClock(ports);
      var hasReset := AnyReset(ports);
      var clockConstant := if hasClock then ClockConstant else "";
      testbench := testbench + clockConstant;
      testbench := testbench + Instantiation(entityName);
      var genericMap := GenericMapText(generics);
      testbench := testbench + genericMap;
      var portMap := PortMapText(ports);
      testbench := testbench + portMap;
      var clockProcess := "";
      if hasClock {
        var clockSignal := ClockSignal(ports);
        clockProcess := ClockProcess(clockSignal);
      }
      testbench := testbench + clockProcess;
      testbench := testbench + Stimulus;
    }
  }

  /** `process_file`: a fresh generator per file, so the testbench holds exactly what that one
      file declares; without an entity declaration the entity name stays empty. */
  method GenerateForFile(content: string, timestamp: string) returns (testbench: string)
    ensures testbench == Testbench(if EntityNameOf(content).Some? then EntityNameOf(content).value else "",
                                   GenericsOf(content), PortsOf(content), timestamp)
  {
    var generator := new VhdlTestbenchGenerator();
    generator.ParseVhdlFile(content);
    assert generator.entityName == (if EntityNameOf(content).Some? then EntityNameOf(content).value else "");
    assert generator.generics == GenericsOf(content) && generator.ports == PortsOf(content);
    testbench := generator.GenerateTestbench(timestamp);
  }

  /** `select_file` of the GUI: one generator for the whole session, so each file selected adds its
      generics and ports to those of the files selected before it. */
  method GenerateForSelection(generator: VhdlTestbenchGenerator, content: string, timestamp: string)
      returns (testbench: string)
    modifies generator
    ensures generator.generics == old(generator.generics) + GenericsOf(content)
    ensures generator.ports == old(generator.ports) + PortsOf(content)
    ensures generator.entityName ==
      (if EntityNameOf(content).Some? then EntityNameOf(content).value else old(generator.entityName))
    ensures testbench == Testbench(generator.entityName, generator.generics, generator.ports, timestamp)
  {
    generator.ParseVhdlFile(content);
    testbench := generator.GenerateTestbench(timestamp);
  }

  /** The generic clause: one line per generic, joined by `;\n`; nothing without generics. */
  method GenericClauseText(gs: seq<Generic>) returns (section: string)
    ensures section == GenericSection(gs)
  {
    section := "";
    if |gs| > 0 {
      section := section + "\n        generic (\n";
      var genericLines: seq<string> := [];
      for k := 0 to |gs|
        invariant genericLines == GenericLines(gs[..k])
      {
        genericLines := genericLines + [GenericLine(gs[k])];
      }
      assert gs[..|gs|] == gs;
      section := section + Join(genericLines, ";\n") + "\n        );";
    }
  }

  /** The port clause: one line per port, joined by `;\n`, and the end of the component. */
  method PortClauseText(ps: seq<Port>) returns (section: string)
    ensures section == PortSection(ps)
  {
    section := "\n        port (\n";
    var portLines: seq<string> := [];
    for k := 0 to |ps|
      invariant portLines == PortLines(ps[..k])
    {
      portLines := portLines + [PortLine(ps[k])];
    }
    assert ps[..|ps|] == ps;
    section := section + Join(portLines, ";\n") + "\n        );\n";
    section := section + "    end component;\n\n";
  }

  /** The signal declarations: one `_tb` signal per port. */
  method SignalText(ps: seq<Port>) returns (section: string)
    ensures section == SignalSection(ps)
  {
    section := "    -- Signals\n";
    ghost var lines: seq<string> := [];
    for k := 0 to |ps|
      invariant lines == SignalLines(ps[..k]) && section == "    -- Signals\n" + Concat(lines)
    {
      ConcatAppend(lines, SignalLine(ps[k]));
      section := section + SignalLine(ps[k]);
      lines := lines + [SignalLine(ps[k])];
      assert lines == SignalLines(ps[..k + 1]);
    }
    assert ps[..|ps|] == ps;
  }

  /** `has_clock`: `any` over the ports. */
  method AnyClock(ps: seq<Port>) returns (found: bool)
    ensures found == HasClock(ps)
  {
    found := false;
    for k := 0 to |ps|
      invariant found <==> exists j :: 0 <= j < k && IsClockName(ps[j].name)
    {
      if IsClockName(ps[k].name) {
        found := true;
      }
    }
  }

  /** `has_reset`: `any` over the ports. */
  method AnyReset(ps: seq<Port>) returns (found: bool)
    ensures found == HasReset(ps)
  {
    found := false;
    for k := 0 to |ps|
      invariant found <==> exists j :: 0 <= j < k && IsResetName(ps[j].name)
    {
      if IsResetName(ps[k].name) {
        found := true;
      }
    }
  }

  /** `clock_signal`: `next` over the ports with a clock name, so the first of them. */
  method ClockSignal(ps: seq<Port>) returns (clock: string)
    requires HasClock(ps)
    ensures exists i :: 0 <= i < |ps| && clock == ps[i].name && IsClockName(clock)
                        && forall j :: 0 <= j < i ==> !IsClockName(ps[j].name)
    ensures clock == ps[FirstClock(ps)].name
  {
    var k := 0;
    while !IsClockName(ps[k].name)
      invariant k < |ps| && forall j :: 0 <= j < k ==> !IsClockName(ps[j].name)
      invariant exists j :: k <= j < |ps| && IsClockName(ps[j].name)
      decreases |ps| - k
    {
      k := k + 1;
    }
    clock := ps[k].name;
    assert k == FirstClock(ps);
  }

  /** The generic map: each generic bound to its default, joined by `,\n`; nothing without generics. */
  method GenericMapText(gs: seq<Generic>) returns (section: string)
    ensures section == GenericMapSection(gs)
  {
    section := "";
    if |gs| > 0 {
      section := section + "\n        generic map (\n";
      var genericMaps: seq<string> := [];
      for k := 0 to |gs|
        invariant genericMaps == GenericAssocs(gs[..k])
      {
        genericMaps := genericMaps + [GenericAssoc(gs[k])];
      }
      assert gs[..|gs|] == gs;
      section := section + Join(genericMaps, ",\n") + "\n        )";
    }
  }

  /** The port map: each port wired to its `_tb` signal, joined by `,\n`. */
  method PortMapText(ps: seq<Port>) returns (section: string)
    ensures section == PortMapSection(ps)
  {
    section := "\n        port map (\n";
    var portMaps: seq<string> := [];
    for k := 0 to |ps|
      invariant portMaps == PortAssocs(ps[..k])
    {
      portMaps := portMaps + [PortAssoc(ps[k])];
    }
    assert ps[..|ps|] == ps;
    section := section + Join(portMaps, ",\n") + "\n        );\n";
  }
}
