/** The text `generate_testbench` produces, as functions of the entity name, the recorded
    generics and ports, and the timestamp; and readers that recover the records from the
    emitted declarations, which show that no recorded information is lost or garbled. */
module Emit {
  import opened Text
  import opened Extract

  /** The twelve spaces that indent declarations and associations. */
  const Indent := "            "

  // ------------------------------------------------------------------------- one line each

  /** `{name} : {type} := {default}`, one entry of the component's generic clause. */
  function GenericLine(g: Generic): string {
    Indent + g.name + " : " + g.typ + " := " + g.default
  }

  /** `{name} : {direction} {type}`, one entry of the component's port clause. */
  function PortLine(p: Port): string {
    Indent + p.name + " : " + p.dir + " " + p.typ
  }

  /** `signal {name}_tb : {type}` without its terminator. */
  function SignalBody(p: Port): string {
    "    signal " + p.name + "_tb : " + p.typ
  }

  /** The declaration of the testbench signal wired to one port. */
  function SignalLine(p: Port): string {
    SignalBody(p) + ";\n"
  }

  /** `{name} => {default}`, one entry of the generic map. */
  function GenericAssoc(g: Generic): string {
    Indent + g.name + " => " + g.default
  }

  /** `{name} => {name}_tb`, one entry of the port map. */
  function PortAssoc(p: Port): string {
    Indent + p.name + " => " + p.name + "_tb"
  }

  // ------------------------------------------------------------------------- reading a line back

  /** The word that starts at position i, and where it ends. */
  function WordAt(l: string, i: nat): (r: Option<nat>)
    requires i <= |l|
    ensures r.Some? ==> i < r.value <= |l|
  {
    var e := RunEnd(l, i, Word);
    if e == i then None else Some(e)
  }

  /** A word of its own, followed by a non-word character, is what WordAt finds. */
  lemma WordAtFinds(pre: string, w: string, post: string)
    requires IsWord(w) && |post| > 0 && !IsWordChar(post[0])
    ensures WordAt(pre + w + post, |pre|) == Some(|pre| + |w|)
  {
    var l := pre + w + post;
    AllInEmbedded(pre, w, post, Word);
    assert l[|pre| + |w|] == post[0];
    assert !InClass(l[|pre| + |w|], Word);
    RunEndIsMaximalRun(l, |pre|, |pre| + |w|, Word);
  }

  /** The word at position i when sep follows it, and the text after sep. */
  function WordThen(l: string, i: nat, sep: string): Option<(string, string)>
    requires i <= |l|
  {
    match WordAt(l, i)
    case None => None
    case Some(e) => if LiteralAt(l, e, sep) then Some((l[i..e], l[e + |sep|..])) else None
  }

  lemma WordThenReadsBack(pre: string, w: string, sep: string, rest: string)
    requires IsWord(w) && |sep| > 0 && !IsWordChar(sep[0])
    ensures WordThen(pre + w + sep + rest, |pre|, sep) == Some((w, rest))
  {
    var l := pre + w + sep + rest;
    assert l == pre + w + (sep + rest);
    WordAtFinds(pre, w, sep + rest);
    var e := |pre| + |w|;
    assert l[|pre|..e] == w;
    assert l[e..e + |sep|] == sep;
    assert l[e + |sep|..] == rest;
  }

  /** The name and what follows ` {sep} ` in an indented declaration or association. */
  function ParseNamed(l: string, sep: string): Option<(string, string)> {
    if LiteralAt(l, 0, Indent) then WordThen(l, |Indent|, sep) else None
  }

  lemma NamedReadsBack(name: string, sep: string, rest: string)
    requires IsWord(name) && |sep| > 0 && !IsWordChar(sep[0])
    ensures ParseNamed(Indent + name + sep + rest, sep) == Some((name, rest))
  {
    assert (Indent + name + sep + rest)[..|Indent|] == Indent;
    WordThenReadsBack(Indent, name, sep, rest);
  }

  /** The direction and type that follow a port's ` : `. */
  function ParseDirection(rest: string): Option<(string, string)> {
    if LiteralAt(rest, 0, "in ") then Some(("in", rest[3..]))
    else if LiteralAt(rest, 0, "out ") then Some(("out", rest[4..]))
    else None
  }

  lemma DirectionReadsBack(dir: string, typ: string)
    requires dir == "in" || dir == "out"
    ensures ParseDirection(dir + " " + typ) == Some((dir, typ))
  {
    var rest := dir + " " + typ;
    if dir == "in" {
      assert rest[..3] == "in ";
      assert rest[3..] == typ;
    } else {
      assert rest[..3][0] == 'o';
      assert rest[..4] == "out ";
      assert rest[4..] == typ;
    }
  }

  /** A port from a line of the port clause. */
  function ParsePortLine(l: string): Option<Port> {
    match ParseNamed(l, " : ")
    case None => None
    case Some(nr) =>
      match ParseDirection(nr.1)
      case None => None
      case Some(dt) => Some(Port(nr.0, dt.0, dt.1))
  }

  /** The port clause line of a recorded port gives the port back. */
  lemma PortLineReadsBack(p: Port)
    requires ValidPort(p)
    ensures ParsePortLine(PortLine(p)) == Some(p)
  {
    assert PortLine(p) == Indent + p.name + " : " + (p.dir + " " + p.typ);
    NamedReadsBack(p.name, " : ", p.dir + " " + p.typ);
    DirectionReadsBack(p.dir, p.typ);
  }

  /** A generic from a line of the generic clause. */
  function ParseGenericLine(l: string): Option<Generic> {
    match ParseNamed(l, " : ")
    case None => None
    case Some(nr) =>
      match WordThen(nr.1, 0, " := ")
      case None => None
      case Some(td) => Some(Generic(nr.0, td.0, td.1))
  }

  /** The generic clause line of a recorded generic gives the generic back. */
  lemma GenericLineReadsBack(g: Generic)
    requires ValidGeneric(g)
    ensures ParseGenericLine(GenericLine(g)) == Some(g)
  {
    var rest := g.typ + " := " + g.default;
    assert GenericLine(g) == Indent + g.name + " : " + rest;
    NamedReadsBack(g.name, " : ", rest);
    assert rest == "" + g.typ + " := " + g.default;
    WordThenReadsBack("", g.typ, " := ", g.default);
  }

  /** A name and its actual from a line of the generic map. */
  function ParseGenericAssoc(l: string): Option<(string, string)> {
    ParseNamed(l, " => ")
  }

  lemma GenericAssocReadsBack(g: Generic)
    requires ValidGeneric(g)
    ensures ParseGenericAssoc(GenericAssoc(g)) == Some((g.name, g.default))
  {
    NamedReadsBack(g.name, " => ", g.default);
  }

  /** The port a line of the port map connects, provided it is wired to its own `_tb` signal. */
  function ParsePortAssoc(l: string): Option<string> {
    match ParseNamed(l, " => ")
    case None => None
    case Some(nr) => if nr.1 == nr.0 + "_tb" then Some(nr.0) else None
  }

  /** The port map line of a recorded port wires the port to its own signal. */
  lemma PortAssocReadsBack(p: Port)
    requires ValidPort(p)
    ensures ParsePortAssoc(PortAssoc(p)) == Some(p.name)
  {
    assert PortAssoc(p) == Indent + p.name + " => " + (p.name + "_tb");
    NamedReadsBack(p.name, " => ", p.name + "_tb");
  }

  /** The port name and type a signal declaration (without `;\n`) is made for. */
  function ParseSignal(body: string): Option<(string, string)> {
    if !LiteralAt(body, 0, "    signal ") then None
    else match WordThen(body, 11, " : ")
      case None => None
      case Some(wt) =>
        var w := wt.0;
        if |w| > 3 && w[|w| - 3..] == "_tb" then Some((w[..|w| - 3], wt.1)) else None
  }

  /** The signal declared for a recorded port names that port and has its type. */
  lemma SignalReadsBack(p: Port)
    requires ValidPort(p)
    ensures ParseSignal(SignalBody(p)) == Some((p.name, p.typ))
  {
    var w := p.name + "_tb";
    AllInConcat(p.name, "_tb", Word);
    assert SignalBody(p) == "    signal " + w + " : " + p.typ;
    assert SignalBody(p)[..11] == "    signal ";
    WordThenReadsBack("    signal ", w, " : ", p.typ);
    assert w[|w| - 3..] == "_tb" && w[..|w| - 3] == p.name;
  }

  // ------------------------------------------------------------------------- lists of lines

  function GenericLines(gs: seq<Generic>): seq<string> {
    seq(|gs|, k requires 0 <= k < |gs| => GenericLine(gs[k]))
  }

  function PortLines(ps: seq<Port>): seq<string> {
    seq(|ps|, k requires 0 <= k < |ps| => PortLine(ps[k]))
  }

  function SignalBodies(ps: seq<Port>): seq<string> {
    seq(|ps|, k requires 0 <= k < |ps| => SignalBody(ps[k]))
  }

  function SignalLines(ps: seq<Port>): seq<string> {
    seq(|ps|, k requires 0 <= k < |ps| => SignalLine(ps[k]))
  }

  function GenericAssocs(gs: seq<Generic>): seq<string> {
    seq(|gs|, k requires 0 <= k < |gs| => GenericAssoc(gs[k]))
  }

  function PortAssocs(ps: seq<Port>): seq<string> {
    seq(|ps|, k requires 0 <= k < |ps| => PortAssoc(ps[k]))
  }

  /** The generic clause entries, joined by `;\n`. */
  function GenericDecls(gs: seq<Generic>): string {
    Join(GenericLines(gs), ";\n")
  }

  /** The port clause entries, joined by `;\n`. */
  function PortDecls(ps: seq<Port>): string {
    Join(PortLines(ps), ";\n")
  }

  /** The signal declarations, each ending in `;\n`. */
  function SignalDecls(ps: seq<Port>): string {
    Concat(SignalLines(ps))
  }

  /** The generic map entries, joined by `,\n`. */
  function GenericMapBody(gs: seq<Generic>): string {
    Join(GenericAssocs(gs), ",\n")
  }

  /** The port map entries, joined by `,\n`. */
  function PortMapBody(ps: seq<Port>): string {
    Join(PortAssocs(ps), ",\n")
  }

  // ------------------------------------------------------------------------- reading lists back

  /** Every line parsed, in order; None as soon as one line does not parse. */
  function ReadAll<T>(lines: seq<string>, parse: string -> Option<T>): Option<seq<T>>
    decreases |lines|
  {
    if lines == [] then Some([])
    else match ReadAll(lines[..|lines| - 1], parse)
      case None => None
      case Some(xs) =>
        match parse(lines[|lines| - 1])
        case None => None
        case Some(x) => Some(xs + [x])
  }

  lemma {:induction false} ReadAllInverts<T>(lines: seq<string>, parse: string -> Option<T>, xs: seq<T>)
    requires |lines| == |xs| && forall k :: 0 <= k < |xs| ==> parse(lines[k]) == Some(xs[k])
    ensures ReadAll(lines, parse) == Some(xs)
    decreases |lines|
  {
    if lines != [] {
      ReadAllInverts(lines[..|lines| - 1], parse, xs[..|xs| - 1]);
      assert xs[..|xs| - 1] + [xs[|xs| - 1]] == xs;
    }
  }

  /** Lines free of `;` and `,` cannot be cut by a separator starting with either. */
  lemma NoSeparatorIsFree(items: seq<string>, sep: string)
    requires |sep| > 0 && (sep[0] == ';' || sep[0] == ',')
    requires forall k :: 0 <= k < |items| ==> NoSeparator(items[k])
    ensures FreeOfSeparator(items, sep)
  {
    forall k, m | 0 <= k < |items| && 0 <= m < |items[k]|
      ensures items[k][m] != sep[0]
    {
      assert InClass(items[k][m], NotSep);
    }
  }

  lemma GenericLineNoSeparator(g: Generic)
    requires ValidGeneric(g)
    ensures NoSeparator(GenericLine(g)) && NoSeparator(GenericAssoc(g))
  {
    WordIsNotSep(g.name);
    WordIsNotSep(g.typ);
    AllInConcat(Indent, g.name, NotSep);
    AllInConcat(Indent + g.name, " : ", NotSep);
    AllInConcat(Indent + g.name + " : ", g.typ, NotSep);
    AllInConcat(Indent + g.name + " : " + g.typ, " := ", NotSep);
    AllInConcat(Indent + g.name + " : " + g.typ + " := ", g.default, NotSep);
    AllInConcat(Indent + g.name, " => ", NotSep);
    AllInConcat(Indent + g.name + " => ", g.default, NotSep);
  }

  lemma PortLineNoSeparator(p: Port)
    requires ValidPort(p)
    ensures NoSeparator(PortLine(p)) && NoSeparator(SignalBody(p)) && NoSeparator(PortAssoc(p))
  {
    WordIsNotSep(p.name);
    AllInConcat(Indent, p.name, NotSep);
    AllInConcat(Indent + p.name, " : ", NotSep);
    AllInConcat(Indent + p.name + " : ", p.dir, NotSep);
    AllInConcat(Indent + p.name + " : " + p.dir, " ", NotSep);
    AllInConcat(Indent + p.name + " : " + p.dir + " ", p.typ, NotSep);
    AllInConcat("    signal ", p.name, NotSep);
    AllInConcat("    signal " + p.name, "_tb : ", NotSep);
    AllInConcat("    signal " + p.name + "_tb : ", p.typ, NotSep);
    AllInConcat(Indent + p.name, " => ", NotSep);
    AllInConcat(Indent + p.name + " => ", p.name, NotSep);
    AllInConcat(Indent + p.name + " => " + p.name, "_tb", NotSep);
  }

  /** The generics declared in a generic clause body. */
  function ReadGenericDecls(text: string): Option<seq<Generic>> {
    ReadAll(Split(text, ";\n"), ParseGenericLine)
  }

  /** The component's generic clause lists exactly the recorded generics, in order. */
  lemma GenericDeclsReadBack(gs: seq<Generic>)
    requires |gs| > 0 && forall g :: g in gs ==> ValidGeneric(g)
    ensures ReadGenericDecls(GenericDecls(gs)) == Some(gs)
  {
    var lines := GenericLines(gs);
    forall k | 0 <= k < |lines|
      ensures NoSeparator(lines[k]) && ParseGenericLine(lines[k]) == Some(gs[k])
    {
      GenericLineNoSeparator(gs[k]);
      GenericLineReadsBack(gs[k]);
    }
    NoSeparatorIsFree(lines, ";\n");
    SplitJoin(lines, ";\n");
    ReadAllInverts(Split(GenericDecls(gs), ";\n"), ParseGenericLine, gs);
  }

  /** The ports declared in a port clause body. */
  function ReadPortDecls(text: string): Option<seq<Port>> {
    ReadAll(Split(text, ";\n"), ParsePortLine)
  }

  /** The component's port clause lists exactly the recorded ports, in order. */
  lemma PortDeclsReadBack(ps: seq<Port>)
    requires |ps| > 0 && forall p :: p in ps ==> ValidPort(p)
    ensures ReadPortDecls(PortDecls(ps)) == Some(ps)
  {
    var lines := PortLines(ps);
    forall k | 0 <= k < |lines|
      ensures NoSeparator(lines[k]) && ParsePortLine(lines[k]) == Some(ps[k])
    {
      PortLineNoSeparator(ps[k]);
      PortLineReadsBack(ps[k]);
    }
    NoSeparatorIsFree(lines, ";\n");
    SplitJoin(lines, ";\n");
    ReadAllInverts(Split(PortDecls(ps), ";\n"), ParsePortLine, ps);
  }

  /** The names and actuals of a generic map body. */
  function ReadGenericMap(text: string): Option<seq<(string, string)>> {
    ReadAll(Split(text, ",\n"), ParseGenericAssoc)
  }

  /** The generic map binds each recorded generic, in order, to its default. */
  lemma GenericMapReadsBack(gs: seq<Generic>)
    requires |gs| > 0 && forall g :: g in gs ==> ValidGeneric(g)
    ensures ReadGenericMap(GenericMapBody(gs)) == Some(seq(|gs|, k requires 0 <= k < |gs| => (gs[k].name, gs[k].default)))
  {
    var lines := GenericAssocs(gs);
    var want := seq(|gs|, k requires 0 <= k < |gs| => (gs[k].name, gs[k].default));
    forall k | 0 <= k < |lines|
      ensures NoSeparator(lines[k]) && ParseGenericAssoc(lines[k]) == Some(want[k])
    {
      GenericLineNoSeparator(gs[k]);
      GenericAssocReadsBack(gs[k]);
    }
    NoSeparatorIsFree(lines, ",\n");
    SplitJoin(lines, ",\n");
    ReadAllInverts(Split(GenericMapBody(gs), ",\n"), ParseGenericAssoc, want);
  }

  /** The port names of a port map body whose every port is wired to its own `_tb` signal. */
  function ReadPortMap(text: string): Option<seq<string>> {
    ReadAll(Split(text, ",\n"), ParsePortAssoc)
  }

  /** The port map wires each recorded port, in order, to its own `_tb` signal. */
  lemma PortMapReadsBack(ps: seq<Port>)
    requires |ps| > 0 && forall p :: p in ps ==> ValidPort(p)
    ensures ReadPortMap(PortMapBody(ps)) == Some(seq(|ps|, k requires 0 <= k < |ps| => ps[k].name))
  {
    var lines := PortAssocs(ps);
    var want := seq(|ps|, k requires 0 <= k < |ps| => ps[k].name);
    forall k | 0 <= k < |lines|
      ensures NoSeparator(lines[k]) && ParsePortAssoc(lines[k]) == Some(want[k])
    {
      PortLineNoSeparator(ps[k]);
      PortAssocReadsBack(ps[k]);
    }
    NoSeparatorIsFree(lines, ",\n");
    SplitJoin(lines, ",\n");
    ReadAllInverts(Split(PortMapBody(ps), ",\n"), ParsePortAssoc, want);
  }

  /** The name and type of each port, in order: what the signal lines declare. */
  function NamesAndTypes(ps: seq<Port>): seq<(string, string)> {
    seq(|ps|, k requires 0 <= k < |ps| => (ps[k].name, ps[k].typ))
  }

  /** The port names and types of a run of signal declarations, each ending in `;\n`. */
  function ReadSignals(text: string): Option<seq<(string, string)>> {
    var pieces := Split(text, ";\n");
    if pieces[|pieces| - 1] != "" then None else ReadAll(pieces[..|pieces| - 1], ParseSignal)
  }

  /** One signal is declared per recorded port, in order, with the port's type. */
  lemma SignalsReadBack(ps: seq<Port>)
    requires forall p :: p in ps ==> ValidPort(p)
    ensures ReadSignals(SignalDecls(ps)) == Some(NamesAndTypes(ps))
  {
    var bodies := SignalBodies(ps);
    var want := NamesAndTypes(ps);
    assert SignalLines(ps) == Terminate(bodies, ";\n");
    ConcatOfTerminated(bodies, ";\n");
    var pieces := bodies + [""];
    forall k | 0 <= k < |pieces|
      ensures NoSeparator(pieces[k])
    {
      if k < |bodies| {
        PortLineNoSeparator(ps[k]);
      }
    }
    NoSeparatorIsFree(pieces, ";\n");
    SplitJoin(pieces, ";\n");
    assert pieces[..|pieces| - 1] == bodies;
    forall k | 0 <= k < |bodies|
      ensures ParseSignal(bodies[k]) == Some(want[k])
    {
      SignalReadsBack(ps[k]);
    }
    ReadAllInverts(bodies, ParseSignal, want);
  }

  // ------------------------------------------------------------------------- clock and reset ports

  /** Python's `str.lower` on ASCII. */
  function Lower(n: string): string {
    seq(|n|, k requires 0 <= k < |n| => ToLower(n[k]))
  }

  predicate StartsWith(s: string, prefix: string) {
    LiteralAt(s, 0, prefix)
  }

  predicate EndsWith(s: string, suffix: string) {
    |suffix| <= |s| && LiteralAt(s, |s| - |suffix|, suffix)
  }

  /** `name.lower().startswith(('clk', 'clock'))`. */
  predicate IsClockName(n: string) {
    StartsWith(Lower(n), "clk") || StartsWith(Lower(n), "clock")
  }

  /** `name.lower().startswith(('rst', 'reset'))`. */
  predicate IsResetName(n: string) {
    StartsWith(Lower(n), "rst") || StartsWith(Lower(n), "reset")
  }

  /** `has_clock`: some port has a clock name. */
  predicate HasClock(ps: seq<Port>) {
    exists k :: 0 <= k < |ps| && IsClockName(ps[k].name)
  }

  /** `has_reset`: some port has a reset name. The emitter computes it and never uses it. */
  predicate HasReset(ps: seq<Port>) {
    exists k :: 0 <= k < |ps| && IsResetName(ps[k].name)
  }

  /** The position of the port `next(...)` picks as the clock: the first one with a clock name. */
  function FirstClock(ps: seq<Port>): (i: nat)
    requires HasClock(ps)
    ensures i < |ps| && IsClockName(ps[i].name)
    ensures forall j :: 0 <= j < i ==> !IsClockName(ps[j].name)
  {
    if IsClockName(ps[0].name) then 0
    else
      assert HasClock(ps[1..]) by {
        var k :| 0 <= k < |ps| && IsClockName(ps[k].name);
        assert ps[1..][k - 1] == ps[k];
      }
      1 + FirstClock(ps[1..])
  }

  /** A name is a clock name exactly when it starts with `clk` or `clock` in any mix of case. */
  lemma ClockNameIgnoresCase(n: string)
    ensures IsClockName(n) <==> CiLiteralAt(n, 0, "clk") || CiLiteralAt(n, 0, "clock")
  {
    var l := Lower(n);
    forall lit | lit == "clk" || lit == "clock"
      ensures StartsWith(l, lit) <==> CiLiteralAt(n, 0, lit)
    {
      if |lit| <= |n| {
        assert forall m :: 0 <= m < |lit| ==> ToLower(lit[m]) == lit[m] && l[..|lit|][m] == ToLower(n[m]);
      }
    }
  }

  /** The clock test on three names: upper and mixed case count, a `clk` that is not at the
      start does not. */
  lemma ClockNameExamples()
    ensures IsClockName("CLK") && IsClockName("Clock_in") && !IsClockName("sclk")
  {
    assert Lower("CLK") == "clk";
    assert Lower("Clock_in") == "clock_in" && "clock_in"[0..5] == "clock";
    assert Lower("sclk") == "sclk" && "sclk"[0..3][0] == 's' && "sclk"[0..4][0] == 's';
  }

  // ------------------------------------------------------------------------- the sections

  /** The comment header, the libraries, the empty testbench entity and the start of the
      component declaration. */
  function Header(name: string, timestamp: string): string {
    Opening(name, timestamp) + Libraries + EntityDecl(name) + ArchitectureHead(name)
  }

  /** The two comment lines naming the entity and the timestamp. */
  function Opening(name: string, timestamp: string): string {
    "-- Generated VHDL Testbench for " + name + "\n-- Generated on: " + timestamp + "\n"
  }

  const Libraries := "\nlibrary ieee;\nuse ieee.std_logic_1164.all;\nuse ieee.numeric_std.all;\n\n"

  /** The testbench's own entity, empty. */
  function EntityDecl(name: string): string {
    "entity " + name + "_tb is\nend entity " + name + "_tb;"
  }

  function ArchitectureHead(name: string): string {
    "\n\narchitecture behavior of " + name + "_tb is\n    -- Component Declaration\n    component " + name + " is"
  }

  /** The component's generic clause; absent without generics. */
  function GenericSection(gs: seq<Generic>): string {
    if |gs| == 0 then "" else "\n        generic (\n" + GenericDecls(gs) + "\n        );"
  }

  /** The component's port clause and the end of the component declaration. */
  function PortSection(ps: seq<Port>): string {
    "\n        port (\n" + PortDecls(ps) + "\n        );\n" + "    end component;\n\n"
  }

  function SignalSection(ps: seq<Port>): string {
    "    -- Signals\n" + SignalDecls(ps)
  }

  const ClockConstant := "\n    -- Clock period definitions\n" + "    constant clk_period : time := 10 ns;\n"

  function ClockConstantSection(ps: seq<Port>): string {
    if HasClock(ps) then ClockConstant else ""
  }

  /** `begin` and the head of the instantiation of the unit under test. */
  function Instantiation(name: string): string {
    "\nbegin\n" + "\n    -- Instantiate the Unit Under Test (UUT)\n" + UutLabel(name)
  }

  function UutLabel(name: string): string {
    "    UUT: " + name
  }

  /** The generic map; absent without generics. */
  function GenericMapSection(gs: seq<Generic>): string {
    if |gs| == 0 then "" else "\n        generic map (\n" + GenericMapBody(gs) + "\n        )"
  }

  function PortMapSection(ps: seq<Port>): string {
    "\n        port map (\n" + PortMapBody(ps) + "\n        );\n"
  }

  /** The process that toggles the clock's signal every half period. */
  function ClockProcess(clock: string): string {
    "\n    -- Clock process\n    clk_process: process\n    begin\n        " + clock + "_tb <= '0';\n"
    + "        wait for clk_period/2;\n        " + clock + "_tb <= '1';\n        wait for clk_period/2;\n    end process;\n"
  }

  function ClockProcessSection(ps: seq<Port>): string {
    if HasClock(ps) then ClockProcess(ps[FirstClock(ps)].name) else ""
  }

  const Stimulus := "\n    -- Stimulus process\n    stim_proc: process\n    begin\n        -- hold reset state for 100 ns\n"
    + "        wait for 100 ns;\n\n        -- Insert stimulus here\n        \n        wait;\n    end process;\n\nend behavior;"

  /** The text `generate_testbench` returns for this entity name, these generics and ports,
      and this timestamp: the sections in the order it appends them. */
  function Testbench(name: string, gs: seq<Generic>, ps: seq<Port>, timestamp: string): string {
    Header(name, timestamp) + GenericSection(gs) + PortSection(ps) + SignalSection(ps)
    + ClockConstantSection(ps) + Instantiation(name) + GenericMapSection(gs) + PortMapSection(ps)
    + ClockProcessSection(ps) + Stimulus
  }

  // ------------------------------------------------------------------------- what the testbench says

  /** piece occurs somewhere in s. */
  ghost predicate Contains(s: string, piece: string) {
    exists i: nat :: LiteralAt(s, i, piece)
  }

  /** The testbench opens with the comment lines naming the entity and the timestamp, and
      declares the empty entity `<name>_tb`. */
  lemma TestbenchOpens(name: string, gs: seq<Generic>, ps: seq<Port>, timestamp: string)
    ensures StartsWith(Testbench(name, gs, ps, timestamp), Opening(name, timestamp))
    ensures Contains(Testbench(name, gs, ps, timestamp), EntityDecl(name))
  {
    HeaderFrame(name, timestamp);
    HeaderSurvives(name, gs, ps, timestamp, 0, Opening(name, timestamp));
    HeaderSurvives(name, gs, ps, timestamp, |Opening(name, timestamp) + Libraries|, EntityDecl(name));
  }

  /** What the header holds, the testbench holds at the same place. */
  lemma HeaderSurvives(name: string, gs: seq<Generic>, ps: seq<Port>, timestamp: string, i: nat, x: string)
    requires LiteralAt(Header(name, timestamp), i, x)
    ensures LiteralAt(Testbench(name, gs, ps, timestamp), i, x)
  {
    var t4 := Header(name, timestamp) + GenericSection(gs) + PortSection(ps) + SignalSection(ps) + ClockConstantSection(ps);
    var t8 := t4 + Instantiation(name) + GenericMapSection(gs) + PortMapSection(ps) + ClockProcessSection(ps);
    LiteralSurvivesAppends(Header(name, timestamp), i, x, GenericSection(gs), PortSection(ps), SignalSection(ps), ClockConstantSection(ps));
    LiteralSurvivesAppends(t4, i, x, Instantiation(name), GenericMapSection(gs), PortMapSection(ps), ClockProcessSection(ps));
    LiteralExtends(t8, Stimulus, i, x);
  }

  /** The testbench instantiates the entity as the unit under test. */
  lemma TestbenchInstantiates(name: string, gs: seq<Generic>, ps: seq<Port>, timestamp: string)
    ensures Contains(Testbench(name, gs, ps, timestamp), UutLabel(name))
  {
    var t4 := Header(name, timestamp) + GenericSection(gs) + PortSection(ps) + SignalSection(ps) + ClockConstantSection(ps);
    var inst, u := Instantiation(name), UutLabel(name);
    InstantiationEndsWithUut(name);
    PieceSurvives(t4, inst, |inst| - |u|, u, GenericMapSection(gs), PortMapSection(ps), ClockProcessSection(ps), Stimulus);
  }

  /** What a piece holds, the text it is appended to, followed by four more pieces, holds
      at the corresponding place. */
  lemma PieceSurvives(s: string, p: string, j: nat, x: string, b1: string, b2: string, b3: string, b4: string)
    requires LiteralAt(p, j, x)
    ensures LiteralAt(s + p + b1 + b2 + b3 + b4, |s| + j, x)
  {
    LiteralParts(s, p);
    LiteralWithin(s + p, |s|, p, j, x);
    LiteralSurvivesAppends(s + p, |s| + j, x, b1, b2, b3, b4);
  }

  /** The testbench closes with the stimulus process and `end behavior;`. */
  lemma TestbenchCloses(name: string, gs: seq<Generic>, ps: seq<Port>, timestamp: string)
    ensures EndsWith(Testbench(name, gs, ps, timestamp), Stimulus)
  {
    EndsWithLast(Header(name, timestamp) + GenericSection(gs) + PortSection(ps) + SignalSection(ps)
                 + ClockConstantSection(ps) + Instantiation(name) + GenericMapSection(gs) + PortMapSection(ps)
                 + ClockProcessSection(ps), Stimulus);
  }

  lemma EndsWithLast(a: string, b: string)
    ensures EndsWith(a + b, b)
  {
    LiteralParts(a, b);
  }

  lemma InstantiationEndsWithUut(name: string)
    ensures |UutLabel(name)| <= |Instantiation(name)|
    ensures LiteralAt(Instantiation(name), |Instantiation(name)| - |UutLabel(name)|, UutLabel(name))
  {
    LiteralParts("\nbegin\n" + "\n    -- Instantiate the Unit Under Test (UUT)\n", UutLabel(name));
  }

  lemma HeaderFrame(name: string, timestamp: string)
    ensures LiteralAt(Header(name, timestamp), 0, Opening(name, timestamp))
    ensures LiteralAt(Header(name, timestamp), |Opening(name, timestamp) + Libraries|, EntityDecl(name))
  {
    var o, e, a := Opening(name, timestamp), EntityDecl(name), ArchitectureHead(name);
    LiteralParts(o + Libraries + e, a);
    LiteralParts(o + Libraries, e);
    LiteralParts(o, Libraries);
    LiteralWithin(Header(name, timestamp), 0, o + Libraries + e, 0, o + Libraries);
    LiteralWithin(Header(name, timestamp), 0, o + Libraries, 0, o);
    LiteralWithin(Header(name, timestamp), 0, o + Libraries + e, |o + Libraries|, e);
  }

  /** Without generics the component has no generic clause and the instance no generic map;
      with generics both are there. */
  lemma GenericSectionsIffGenerics(gs: seq<Generic>)
    ensures GenericSection(gs) == "" <==> gs == []
    ensures GenericMapSection(gs) == "" <==> gs == []
  {
  }

  /** With no ports the port clause is empty and the port map has no entries; the
      separators are still there. */
  lemma NoPortsText()
    ensures PortSection([]) == "\n        port (\n" + "\n        );\n" + "    end component;\n\n"
    ensures PortMapSection([]) == "\n        port map (\n" + "\n        );\n"
    ensures SignalSection([]) == "    -- Signals\n"
  {
    assert PortDecls([]) == "" && PortMapBody([]) == "" && SignalDecls([]) == "";
  }

  /** The clock period constant and the clock process are there exactly when some port has a
      clock name, and the process drives the signal of the first such port. */
  lemma ClockProcessDrivesFirstClockPort(ps: seq<Port>, i: nat)
    requires i < |ps| && IsClockName(ps[i].name)
    requires forall j :: 0 <= j < i ==> !IsClockName(ps[j].name)
    ensures ClockConstantSection(ps) == ClockConstant
    ensures ClockProcessSection(ps) == ClockProcess(ps[i].name)
  {
    var f := FirstClock(ps);
    assert !(f < i) && !(i < f);
  }

  lemma NoClockPortNoClock(ps: seq<Port>)
    requires forall k :: 0 <= k < |ps| ==> !IsClockName(ps[k].name)
    ensures ClockConstantSection(ps) == "" && ClockProcessSection(ps) == ""
  {
  }
}
