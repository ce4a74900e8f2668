/** `parse_vhdl_file`'s captures, turned into the records it stores: the entity name, the
    generics (name, type, stripped default) and the ports (name, direction, type). */
module Extract {
  import opened Text
  import opened Patterns

  /** One entry of `self.generics`. */
  datatype Generic = Generic(name: string, typ: string, default: string)

  /** One entry of `self.ports`. */
  datatype Port = Port(name: string, dir: string, typ: string)

  /** `match.group(1)` of `re.search(p, content)`, when the pattern matches. */
  function FirstCapture(p: Pattern, content: string): Option<string> {
    match SearchText(p, content)
    case None => None
    case Some(m) => Some(Group(content, m, 0))
  }

  /** The keyword a clause pattern starts with. */
  function ClauseKeyword(p: Pattern): string {
    if p == GenericClause then "generic" else "port"
  }

  /** The name of the first entity declaration, if there is one. */
  function EntityNameOf(content: string): Option<string> {
    FirstCapture(EntityDecl, content)
  }

  /** The record one generic item match yields; only the default is stripped. */
  function GenericOf(list: string, m: Match): Generic
    requires WellFormed(list, m, 3)
  {
    Generic(Group(list, m, 0), Group(list, m, 1), Strip(Group(list, m, 2)))
  }

  /** The record one port item match yields. */
  function PortOf(list: string, m: Match): Port
    requires WellFormed(list, m, 3)
  {
    Port(Group(list, m, 0), Group(list, m, 1), Group(list, m, 2))
  }

  /** One generic record per match, in order. */
  function GenericsIn(list: string, ms: seq<Match>): (r: seq<Generic>)
    requires forall k :: 0 <= k < |ms| ==> WellFormed(list, ms[k], 3)
    ensures |r| == |ms| && forall k :: 0 <= k < |ms| ==> r[k] == GenericOf(list, ms[k])
  {
    if ms == [] then [] else GenericsIn(list, ms[..|ms| - 1]) + [GenericOf(list, ms[|ms| - 1])]
  }

  /** One port record per match, in order. */
  function PortsIn(list: string, ms: seq<Match>): (r: seq<Port>)
    requires forall k :: 0 <= k < |ms| ==> WellFormed(list, ms[k], 3)
    ensures |r| == |ms| && forall k :: 0 <= k < |ms| ==> r[k] == PortOf(list, ms[k])
  {
    if ms == [] then [] else PortsIn(list, ms[..|ms| - 1]) + [PortOf(list, ms[|ms| - 1])]
  }

  /** One more match adds its record at the end. */
  lemma GenericsInExtend(base: seq<Generic>, list: string, ms: seq<Match>, k: nat)
    requires k < |ms| && forall k :: 0 <= k < |ms| ==> WellFormed(list, ms[k], 3)
    ensures base + GenericsIn(list, ms[..k + 1]) == base + GenericsIn(list, ms[..k]) + [GenericOf(list, ms[k])]
  {
    PrefixOfPrefix(ms, k);
  }

  /** One more match adds its record at the end. */
  lemma PortsInExtend(base: seq<Port>, list: string, ms: seq<Match>, k: nat)
    requires k < |ms| && forall k :: 0 <= k < |ms| ==> WellFormed(list, ms[k], 3)
    ensures base + PortsIn(list, ms[..k + 1]) == base + PortsIn(list, ms[..k]) + [PortOf(list, ms[k])]
  {
    PrefixOfPrefix(ms, k);
  }

  /** The generics one call of `parse_vhdl_file` appends: one per generic item match in the
      first generic clause body, none when there is no generic clause. */
  function GenericsOf(content: string): seq<Generic> {
    match FirstCapture(GenericClause, content)
    case None => []
    case Some(list) => GenericsIn(list, Matches(GenericItem, list))
  }

  /** The ports one call of `parse_vhdl_file` appends: one per port item match in the first
      port clause body, none when there is no port clause. */
  function PortsOf(content: string): seq<Port> {
    match FirstCapture(PortClause, content)
    case None => []
    case Some(list) => PortsIn(list, Matches(PortItem, list))
  }

  /** The records of one parse, in terms of the two clause searches. */
  lemma RecordsOfSearch(content: string)
    ensures var g := SearchText(GenericClause, content);
            GenericsOf(content) == if g.Some? then GenericsIn(Group(content, g.value, 0), Matches(GenericItem, Group(content, g.value, 0))) else []
    ensures var p := SearchText(PortClause, content);
            PortsOf(content) == if p.Some? then PortsIn(Group(content, p.value, 0), Matches(PortItem, Group(content, p.value, 0))) else []
  {
  }

  /** Non-empty and made of word characters only. */
  predicate IsWord(t: string) {
    |t| > 0 && AllIn(t, 0, |t|, Word)
  }

  /** Free of `;` and `,`. */
  predicate NoSeparator(t: string) {
    AllIn(t, 0, |t|, NotSep)
  }

  /** What every recorded generic looks like. */
  predicate ValidGeneric(g: Generic) {
    IsWord(g.name) && IsWord(g.typ) && Stripped(g.default) && NoSeparator(g.default)
  }

  /** What every recorded port looks like. */
  predicate ValidPort(p: Port) {
    IsWord(p.name) && (p.dir == "in" || p.dir == "out") && |p.typ| > 0 && IsWordChar(p.typ[0]) && NoSeparator(p.typ)
  }

  // ------------------------------------------------------------------------- the entity name

  /** A found entity name is the name word of an entity declaration at the position
      re.search reports. */
  lemma EntityNameIsDeclared(content: string)
    requires EntityNameOf(content).Some?
    ensures var m := SearchText(EntityDecl, content).value;
            && EntityForm(content, m, m.end - 2)
            && EntityNameOf(content).value == content[m.groups[0].lo..m.groups[0].hi]
            && IsWord(EntityNameOf(content).value)
  {
    var m := SearchText(EntityDecl, content).value;
    EntityAtHasForm(content, m.start);
    AllInSlice(content, m.groups[0].lo, m.groups[0].hi, Word);
  }

  /** Wherever an entity declaration occurs, a name is found, at that declaration or an
      earlier one; found at that one, it is that declaration's name. */
  lemma EntityNameIsEarliest(content: string, m': Match, a': nat)
    requires EntityForm(content, m', a')
    ensures EntityNameOf(content).Some? && SearchText(EntityDecl, content).value.start <= m'.start
    ensures SearchText(EntityDecl, content).value.start == m'.start ==>
              EntityNameOf(content).value == content[m'.groups[0].lo..m'.groups[0].hi]
  {
    EntityFormIsEntityAt(content, m', a');
    SearchTextIsLeftmost(EntityDecl, content, m'.start);
  }

  // ------------------------------------------------------------------------- the clause bodies

  /** A clause body is the lazy group of the earliest clause. */
  lemma ClauseListIsFirstBody(p: Pattern, content: string)
    requires p == GenericClause || p == PortClause
    ensures FirstCapture(p, content).Some? ==>
              var m := SearchText(p, content).value;
              && ClauseForm(content, ClauseKeyword(p), m, m.groups[0].lo - 1)
              && FirstCapture(p, content).value == content[m.groups[0].lo..m.groups[0].hi]
  {
    if FirstCapture(p, content).Some? {
      ClauseAtHasForm(content, ClauseKeyword(p), SearchText(p, content).value.start);
    }
  }

  /** A clause body never holds `);`: the lazy group stops at the first one. */
  lemma ClauseListHasNoTerminator(p: Pattern, content: string)
    requires p == GenericClause || p == PortClause
    requires FirstCapture(p, content).Some?
    ensures forall j :: !LiteralAt(FirstCapture(p, content).value, j, ");")
  {
    var m := SearchText(p, content).value;
    ClauseAtHasForm(content, ClauseKeyword(p), m.start);
    SliceFreeOfLiteral(content, m.groups[0].lo, m.groups[0].hi, ");");
  }

  /** Wherever a clause occurs, a body is found, at that clause or an earlier one. */
  lemma ClauseListIsEarliest(p: Pattern, content: string, m': Match, p': nat)
    requires p == GenericClause || p == PortClause
    requires ClauseForm(content, ClauseKeyword(p), m', p')
    ensures FirstCapture(p, content).Some? && SearchText(p, content).value.start <= m'.start
  {
    ClauseFormIsLazy(content, ClauseKeyword(p), m', p');
    SearchTextIsLeftmost(p, content, m'.start);
  }

  /** Without a generic clause nothing is added to the generics. */
  lemma NoGenericClauseNoGenerics(content: string)
    requires forall m, p :: !ClauseForm(content, "generic", m, p)
    ensures GenericsOf(content) == []
  {
    ClauseListIsFirstBody(GenericClause, content);
  }

  /** Without a port clause nothing is added to the ports. */
  lemma NoPortClauseNoPorts(content: string)
    requires forall m, p :: !ClauseForm(content, "port", m, p)
    ensures PortsOf(content) == []
  {
    ClauseListIsFirstBody(PortClause, content);
  }

  // ------------------------------------------------------------------------- the records

  /** The record a generic item match yields has word name and type, and a stripped
      default with no `;` or `,`. */
  lemma GenericOfIsValid(list: string, i: nat)
    requires i <= |list| && GenericItemAt(list, i).Some?
    ensures ValidGeneric(GenericOf(list, GenericItemAt(list, i).value))
  {
    var m := GenericItemAt(list, i).value;
    GenericItemGroups(list, i);
    AllInSlice(list, m.groups[0].lo, m.groups[0].hi, Word);
    AllInSlice(list, m.groups[1].lo, m.groups[1].hi, Word);
    AllInSlice(list, m.groups[2].lo, m.groups[2].hi, NotSep);
    StripKeepsClass(Group(list, m, 2), NotSep);
  }

  /** The record a port item match yields has a word name, the direction `in` or `out`,
      and a type that starts with a word character and has no `;` or `,`. */
  lemma PortOfIsValid(list: string, i: nat)
    requires i <= |list| && PortItemAt(list, i).Some?
    ensures ValidPort(PortOf(list, PortItemAt(list, i).value))
  {
    var m := PortItemAt(list, i).value;
    PortItemGroups(list, i);
    PortDirectionIsInOrOut(list, i);
    AllInSlice(list, m.groups[0].lo, m.groups[0].hi, Word);
    AllInSlice(list, m.groups[2].lo, m.groups[2].hi, NotSep);
  }

  /** An entry declared `inout` with a plain type name is recorded with direction `in` and
      type `out`, whatever its declared type. */
  lemma InoutPortRecordedAsInOut(list: string, i: nat)
    requires i <= |list| && PortItemAt(list, i).Some?
    requires InoutPlainType(list, PortItemAt(list, i).value.groups[1].lo)
    ensures PortOf(list, PortItemAt(list, i).value).dir == "in"
    ensures PortOf(list, PortItemAt(list, i).value).typ == "out"
  {
    var m := PortItemAt(list, i).value;
    var d := m.groups[1].lo;
    InoutThenTypeIsOut(list, d);
    InoutTakesIn(list, d);
    PortItemAtParts(list, i);
    assert m.groups[1] == Span(d, d + 2) && m.groups[2] == Span(d + 2, d + 5);
  }

  /** Every generic a parse appends is valid. */
  lemma GenericsOfAreValid(content: string)
    ensures forall g :: g in GenericsOf(content) ==> ValidGeneric(g)
  {
    match FirstCapture(GenericClause, content)
    case None =>
    case Some(list) =>
      var ms := Matches(GenericItem, list);
      MatchesAreMatchesAt(GenericItem, list);
      forall k | 0 <= k < |ms|
        ensures ValidGeneric(GenericOf(list, ms[k]))
      {
        GenericOfIsValid(list, ms[k].start);
      }
  }

  /** Every port a parse appends is valid. */
  lemma PortsOfAreValid(content: string)
    ensures forall p :: p in PortsOf(content) ==> ValidPort(p)
  {
    match FirstCapture(PortClause, content)
    case None =>
    case Some(list) =>
      var ms := Matches(PortItem, list);
      MatchesAreMatchesAt(PortItem, list);
      forall k | 0 <= k < |ms|
        ensures ValidPort(PortOf(list, ms[k]))
      {
        PortOfIsValid(list, ms[k].start);
      }
  }
}
