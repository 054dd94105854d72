/** The scanner that narrows `nft list ruleset` to one table or chain
    (guest/linuxlab-agent/src/validators/network.rs), against the structured ruleset that the
    listing prints. */
module FirewallScan {
  import opened Prelude
  import opened Text

  // ---------------------------------------------------------------- the scanner

  /** The loop's variables; `kept` lists the lines collected so far. */
  datatype State = State(depth: nat, inTable: bool, inChain: bool, kept: seq<string>)

  datatype Scope = Scope(table: Option<string>, chain: Option<string>)

  function Saturating(depth: nat, opening: nat, closing: nat): nat {
    if depth + opening >= closing then depth + opening - closing else 0
  }

  function DepthAfter(depth: nat, line: string): nat {
    Saturating(depth, Count(Trim(line), '{'), Count(Trim(line), '}'))
  }

  /** One line of the listing. */
  function Step(scope: Scope, s: State, line: string): State {
    var trimmed := Trim(line);
    var isTable := scope.table.Some? && StartsWith(trimmed, "table ");
    var named := isTable && Contains(trimmed, scope.table.value);
    var inTable := if isTable then named else s.inTable;
    var afterTable := if isTable && !named then scope.chain.None? else s.inChain;
    var inChain :=
      if scope.chain.Some? && StartsWith(trimmed, "chain ")
      then |Words(trimmed)| > 1 && Words(trimmed)[1] == scope.chain.value
      else afterTable;
    var depth := DepthAfter(s.depth, line);
    State(depth, inTable,
          if depth == 0 && StartsWith(trimmed, "}") then scope.chain.None? else inChain,
          if inTable && inChain then s.kept + [line] else s.kept)
  }

  function Scan(scope: Scope, s: State, lines: seq<string>): State
    decreases |lines|
  {
    if lines == [] then s else Scan(scope, Step(scope, s, lines[0]), lines[1..])
  }

  function Start(scope: Scope): State {
    State(0, scope.table.None?, scope.chain.None?, [])
  }

  lemma {:induction false} ScanAppend(scope: Scope, s: State, a: seq<string>, b: seq<string>)
    ensures Scan(scope, s, a + b) == Scan(scope, Scan(scope, s, a), b)
    decreases |a|
  {
    if a == [] {
      assert a + b == b;
    } else {
      assert (a + b)[1..] == a[1..] + b;
      ScanAppend(scope, Step(scope, s, a[0]), a[1..], b);
    }
  }

  lemma ScanNext(scope: Scope, s: State, lines: seq<string>, n: nat)
    requires n < |lines|
    ensures Scan(scope, s, lines[..n + 1]) == Step(scope, Scan(scope, s, lines[..n]), lines[n])
  {
    hide Step;
    assert lines[..n + 1] == lines[..n] + [lines[n]];
    ScanAppend(scope, s, lines[..n], [lines[n]]);
    ScanOne(scope, Scan(scope, s, lines[..n]), lines[n]);
  }

  /** `extract_block`, on the lines of the listing. */
  method ExtractBlock(lines: seq<string>, table: Option<string>, chain: Option<string>)
    returns (collected: seq<string>)
    ensures collected == Scan(Scope(table, chain), Start(Scope(table, chain)), lines).kept
  {
    hide Scan, Trim, Count, Words, Contains;
    ghost var scope := Scope(table, chain);
    ScanNothing(scope, Start(scope));
    collected := [];
    var depth: nat := 0;
    var inTable, inChain := table.None?, chain.None?;
    for n := 0 to |lines|
      invariant State(depth, inTable, inChain, collected) == Scan(scope, Start(scope), lines[..n])
    {
      var line := lines[n];
      var trimmed := Trim(line);
      if table.Some? {
        if StartsWith(trimmed, "table ") && Contains(trimmed, table.value) {
          inTable := true;
        } else if StartsWith(trimmed, "table ") {
          inTable := false;
          inChain := chain.None?;
        }
      }
      if chain.Some? {
        if StartsWith(trimmed, "chain ") {
          var words := Words(trimmed);
          inChain := |words| > 1 && words[1] == chain.value;
        }
      }
      depth := Saturating(depth, Count(trimmed, '{'), Count(trimmed, '}'));
      if inTable && inChain {
        collected := collected + [line];
      }
      if depth == 0 && StartsWith(trimmed, "}") {
        inChain := chain.None?;
      }
      ScanNext(scope, Start(scope), lines, n);
    }
    assert lines[..|lines|] == lines;
  }

  // ---------------------------------------------------------------- the listing

  datatype Chain = Chain(name: string, rules: seq<string>)

  /** `prelude` is what a table lists before its chains: sets, maps, counters, blank lines. */
  datatype Table = Table(title: string, prelude: seq<string>, chains: seq<Chain>)

  function TableHeader(t: Table): string {
    "table " + t.title + " {"
  }

  function ChainHeader(c: Chain): string {
    "\tchain " + c.name + " {"
  }

  function Indent(rules: seq<string>): seq<string> {
    if rules == [] then [] else ["\t\t" + rules[0]] + Indent(rules[1..])
  }

  function PrintChain(c: Chain): seq<string> {
    [ChainHeader(c)] + Indent(c.rules) + ["\t}"]
  }

  /** Chains are separated by a blank line; the table's brace follows the last one. */
  function PrintChains(chains: seq<Chain>): seq<string> {
    if chains == [] then ["}"]
    else PrintChain(chains[0]) + (if |chains| > 1 then [""] else []) + PrintChains(chains[1..])
  }

  function PrintTable(t: Table): seq<string> {
    [TableHeader(t)] + t.prelude + PrintChains(t.chains)
  }

  function Print(tables: seq<Table>): seq<string> {
    if tables == [] then [] else PrintTable(tables[0]) + Print(tables[1..])
  }

  ghost predicate Braceless(s: string) {
    '{' !in s && '}' !in s
  }

  /** A line that neither opens a table nor a chain. */
  ghost predicate PlainLine(line: string) {
    !StartsWith(Trim(line), "table ") && !StartsWith(Trim(line), "chain ")
  }

  function DepthAfterAll(depth: nat, lines: seq<string>): nat
    decreases |lines|
  {
    if lines == [] then depth else DepthAfterAll(DepthAfter(depth, lines[0]), lines[1..])
  }

  ghost predicate ChainOk(c: Chain) {
    && c.name != "" && Braceless(c.name) && (forall i :: 0 <= i < |c.name| ==> !IsWhitespace(c.name[i]))
    && forall r :: r in c.rules ==> PlainLine(r) && Count(Trim(r), '{') == Count(Trim(r), '}')
  }

  /** Titles and names hold no braces, the braces of a rule are paired, and so are those of the
      prelude as a whole. */
  ghost predicate TableOk(t: Table) {
    && Braceless(t.title) && DepthAfterAll(1, t.prelude) == 1
    && (forall line :: line in t.prelude ==> PlainLine(line))
    && forall c :: c in t.chains ==> ChainOk(c)
  }

  // ---------------------------------------------------------------- what is kept

  ghost predicate TableNamed(scope: Scope, t: Table) {
    scope.table.None? || Contains(TableHeader(t), scope.table.value)
  }

  ghost predicate ChainNamed(scope: Scope, c: Chain) {
    scope.chain.None? || c.name == scope.chain.value
  }

  /** A chain is kept up to the line before the next chain, or up to the table's brace. */
  ghost function KeptChains(scope: Scope, inChain: bool, chains: seq<Chain>): seq<string>
    decreases |chains|
  {
    if chains == [] then if inChain then ["}"] else []
    else
      var named := ChainNamed(scope, chains[0]);
      (if named then PrintChain(chains[0]) + (if |chains| > 1 then [""] else []) else [])
      + KeptChains(scope, named, chains[1..])
  }

  ghost function KeptTable(scope: Scope, t: Table): seq<string> {
    if !TableNamed(scope, t) then []
    else if scope.chain.None? then PrintTable(t)
    else KeptChains(scope, false, t.chains)
  }

  ghost function Kept(scope: Scope, tables: seq<Table>): seq<string> {
    if tables == [] then [] else KeptTable(scope, tables[0]) + Kept(scope, tables[1..])
  }

  // ---------------------------------------------------------------- single lines

  lemma HeaderLine(before: string, name: string)
    requires before == "table " || before == "chain "
    requires Braceless(name)
    ensures var line := before + name + " {";
      Trim(line) == line && Count(line, '{') == 1 && Count(line, '}') == 0
  {
    var line := before + name + " {";
    TrimSolid(line);
    CountConcat(before + name, " {", '{');
    CountConcat(before + name, " {", '}');
    CountConcat(before, name, '{');
    CountConcat(before, name, '}');
    CountAbsent(name, '{');
    CountAbsent(name, '}');
    CountAbsent(before, '{');
    CountAbsent(before, '}');
    assert Count(" {", '{') == 1 && Count(" {", '}') == 0;
  }

  lemma ChainHeaderWords(name: string)
    requires name != "" && forall i :: 0 <= i < |name| ==> !IsWhitespace(name[i])
    ensures var words := Words("chain " + name + " {"); |words| > 1 && words[1] == name
  {
    hide Words;
    assert "chain " + name + " {" == "chain" + (" " + (name + " {"));
    WordsFirst("chain", " " + (name + " {"));
    WordsSkipSpace(name + " {");
    WordsFirst(name, " {");
  }

  lemma StepTableHeader(scope: Scope, s: State, t: Table)
    requires Braceless(t.title) && s.depth == 0 && s.inChain == scope.chain.None?
    requires scope.table.None? ==> s.inTable
    ensures Step(scope, s, TableHeader(t))
         == State(1, TableNamed(scope, t), scope.chain.None?,
                  s.kept + if TableNamed(scope, t) && scope.chain.None? then [TableHeader(t)] else [])
  {
    hide Words, Count, Trim, Contains;
    HeaderLine("table ", t.title);
    assert StartsWith(TableHeader(t), "table ");
    assert TableHeader(t)[0] == 't';
  }

  lemma StepChainHeader(scope: Scope, s: State, c: Chain)
    requires ChainOk(c) && s.depth == 1
    requires scope.chain.None? ==> s.inChain
    ensures Step(scope, s, ChainHeader(c))
         == State(2, s.inTable, ChainNamed(scope, c),
                  s.kept + if s.inTable && ChainNamed(scope, c) then [ChainHeader(c)] else [])
  {
    hide Words, Count, Trim;
    var line := "chain " + c.name + " {";
    HeaderLine("chain ", c.name);
    ChainHeaderWords(c.name);
    assert ChainHeader(c) == "\t" + line;
    TrimIndented(line);
    assert StartsWith(line, "chain ") && line[0] == 'c';
  }

  lemma StepRule(scope: Scope, s: State, rule: string)
    requires PlainLine(rule) && Count(Trim(rule), '{') == Count(Trim(rule), '}') && s.depth == 2
    ensures Step(scope, s, "\t\t" + rule)
         == s.(kept := s.kept + if s.inTable && s.inChain then ["\t\t" + rule] else [])
  {
    hide Words, Count, Trim;
    assert "\t\t" + rule == "\t" + ("\t" + rule);
    TrimIndented("\t" + rule);
    TrimIndented(rule);
  }

  lemma StepClosing(scope: Scope, s: State, line: string)
    requires (line == "\t}" && s.depth == 2) || (line == "}" && s.depth == 1)
    ensures Step(scope, s, line)
         == State(s.depth - 1, s.inTable, if line == "}" then scope.chain.None? else s.inChain,
                  s.kept + if s.inTable && s.inChain then [line] else [])
  {
    TrimSolid("}");
    assert "\t}" == "\t" + "}";
    TrimIndented("}");
    assert Count("}", '}') == 1 && Count("}", '{') == 0;
    hide Words, Count, Trim;
    assert "}"[0] == '}';
  }

  lemma StepBlank(scope: Scope, s: State)
    requires s.depth == 1
    ensures Step(scope, s, "") == s.(kept := s.kept + if s.inTable && s.inChain then [""] else [])
  {
    assert Trim("") == "";
  }

  // ---------------------------------------------------------------- blocks

  lemma {:induction false} ScanRules(scope: Scope, s: State, rules: seq<string>)
    requires s.depth == 2
    requires forall r :: r in rules ==> PlainLine(r) && Count(Trim(r), '{') == Count(Trim(r), '}')
    ensures Scan(scope, s, Indent(rules))
         == s.(kept := s.kept + if s.inTable && s.inChain then Indent(rules) else [])
    decreases |rules|
  {
    hide Step, Scan, Trim, Count, PlainLine;
    if rules == [] {
      ScanNothing(scope, s);
    } else {
      var add, first, rest := s.inTable && s.inChain, "\t\t" + rules[0], Indent(rules[1..]);
      var s1 := s.(kept := s.kept + if add then [first] else []);
      var s2 := s1.(kept := s1.kept + if add then rest else []);
      StepRule(scope, s, rules[0]);
      ScanOne(scope, s, first);
      ScanRules(scope, s1, rules[1..]);
      ScanThen(scope, s, [first], s1, rest, s2);
      assert s.kept + [first] + rest == s.kept + ([first] + rest);
    }
  }

  lemma ScanChain(scope: Scope, s: State, c: Chain)
    requires ChainOk(c) && s.depth == 1
    requires scope.chain.None? ==> s.inChain
    ensures Scan(scope, s, PrintChain(c))
         == State(1, s.inTable, ChainNamed(scope, c),
                  s.kept + if s.inTable && ChainNamed(scope, c) then PrintChain(c) else [])
  {
    hide Scan, Step, ChainHeader, ChainNamed, ChainOk;
    assert forall r :: r in c.rules ==> PlainLine(r) && Count(Trim(r), '{') == Count(Trim(r), '}') by { RulesAreOk(c); }
    hide PlainLine, Count, Trim, Indent;
    var header, rules, named := ChainHeader(c), Indent(c.rules), ChainNamed(scope, c);
    var add := s.inTable && named;
    var s1 := State(2, s.inTable, named, s.kept + if add then [header] else []);
    var s2 := s1.(kept := s1.kept + if add then rules else []);
    var s3 := State(1, s.inTable, named, s2.kept + if add then ["\t}"] else []);
    StepChainHeader(scope, s, c);
    ScanOne(scope, s, header);
    ScanRules(scope, s1, c.rules);
    ScanThen(scope, s, [header], s1, rules, s2);
    StepClosing(scope, s2, "\t}");
    ScanOne(scope, s2, "\t}");
    ScanThen(scope, s, [header] + rules, s2, ["\t}"], s3);
    assert add ==> s3.kept == s.kept + PrintChain(c);
  }

  lemma RulesAreOk(c: Chain)
    requires ChainOk(c)
    ensures forall r :: r in c.rules ==> PlainLine(r) && Count(Trim(r), '{') == Count(Trim(r), '}')
  {
  }

  lemma ScanThen(scope: Scope, s: State, a: seq<string>, s1: State, b: seq<string>, s2: State)
    requires Scan(scope, s, a) == s1 && Scan(scope, s1, b) == s2
    ensures Scan(scope, s, a + b) == s2
  {
    hide Step;
    ScanAppend(scope, s, a, b);
  }

  lemma ScanOne(scope: Scope, s: State, line: string)
    ensures Scan(scope, s, [line]) == Step(scope, s, line)
  {
    hide Step;
    assert [line][1..] == [];
  }

  lemma {:induction false} ScanChains(scope: Scope, s: State, chains: seq<Chain>)
    requires (forall c :: c in chains ==> ChainOk(c)) && s.depth == 1
    requires scope.chain.None? ==> s.inChain
    ensures Scan(scope, s, PrintChains(chains))
         == State(0, s.inTable, scope.chain.None?,
                  s.kept + if s.inTable then KeptChains(scope, s.inChain, chains) else [])
    decreases |chains|
  {
    hide Scan, Step, ChainOk, PrintChain, ChainNamed;
    if chains == [] {
      ScanOne(scope, s, "}");
      StepClosing(scope, s, "}");
    } else {
      var c, rest, named := chains[0], chains[1..], ChainNamed(scope, chains[0]);
      var add, gap := s.inTable && named, if |chains| > 1 then [""] else [];
      var s1 := State(1, s.inTable, named, s.kept + if add then PrintChain(c) else []);
      var s2 := s1.(kept := s1.kept + if add then gap else []);
      var kept := if s.inTable then KeptChains(scope, named, rest) else [];
      var s3 := State(0, s.inTable, scope.chain.None?, s2.kept + kept);
      ScanChain(scope, s, c);
      assert scope.chain.None? ==> named by { UnscopedNamesAll(scope, c); }
      ScanGap(scope, s1, gap);
      ScanThen(scope, s, PrintChain(c), s1, gap, s2);
      ScanChains(scope, s2, rest);
      ScanThen(scope, s, PrintChain(c) + gap, s2, PrintChains(rest), s3);
      var printed, gapKept := if named then PrintChain(c) else [], if named then gap else [];
      KeptConcat(s.kept, printed, gapKept, KeptChains(scope, named, rest));
    }
  }

  lemma KeptConcat(kept: seq<string>, a: seq<string>, b: seq<string>, c: seq<string>)
    ensures kept + a + b + c == kept + (a + b + c) && kept + [] == kept
  {
  }

  lemma UnscopedNamesAll(scope: Scope, c: Chain)
    ensures scope.chain.None? ==> ChainNamed(scope, c)
  {
  }

  lemma ScanGap(scope: Scope, s: State, gap: seq<string>)
    requires s.depth == 1 && (gap == [""] || gap == [])
    ensures Scan(scope, s, gap) == s.(kept := s.kept + if s.inTable && s.inChain then gap else [])
  {
    if gap == [""] {
      ScanOne(scope, s, "");
      StepBlank(scope, s);
    }
  }

  /** Before the chains nothing is kept, unless no chain was asked for. */
  lemma {:induction false} ScanPrelude(scope: Scope, s: State, lines: seq<string>)
    requires (forall line :: line in lines ==> PlainLine(line)) && s.inChain == scope.chain.None?
    ensures Scan(scope, s, lines)
         == State(DepthAfterAll(s.depth, lines), s.inTable, s.inChain,
                  s.kept + if s.inTable && s.inChain then lines else [])
    decreases |lines|
  {
    hide PlainLine, DepthAfter, Step, Scan;
    if lines == [] {
      ScanNothing(scope, s);
    } else {
      var add, first, rest := s.inTable && s.inChain, lines[0], lines[1..];
      var s1 := State(DepthAfter(s.depth, first), s.inTable, s.inChain, s.kept + if add then [first] else []);
      StepPlain(scope, s, first);
      ScanOne(scope, s, first);
      ScanPrelude(scope, s1, rest);
      ScanAppend(scope, s, [first], rest);
      assert lines == [first] + rest;
      assert s.kept + [first] + rest == s.kept + ([first] + rest);
    }
  }

  lemma StepPlain(scope: Scope, s: State, line: string)
    requires PlainLine(line) && s.inChain == scope.chain.None?
    ensures Step(scope, s, line)
         == State(DepthAfter(s.depth, line), s.inTable, s.inChain,
                  s.kept + if s.inTable && s.inChain then [line] else [])
  {
    hide Trim, Count, Words, Contains;
  }

  /** A table is entered and left at brace depth 0 with no chain open. */
  lemma ScanTable(scope: Scope, s: State, t: Table)
    requires TableOk(t) && s.depth == 0 && s.inChain == scope.chain.None?
    requires scope.table.None? ==> s.inTable
    ensures Scan(scope, s, PrintTable(t))
         == State(0, TableNamed(scope, t), scope.chain.None?, s.kept + KeptTable(scope, t))
  {
    hide Scan, Step, ChainOk, TableNamed, TableHeader, PrintChains, DepthAfterAll, PlainLine, KeptChains, Braceless;
    var header, chains, named := TableHeader(t), PrintChains(t.chains), TableNamed(scope, t);
    var all := scope.chain.None?;
    var s1 := State(1, named, all, s.kept + if named && all then [header] else []);
    var s2 := s1.(kept := s1.kept + if named && all then t.prelude else []);
    var s3 := State(0, named, all, s2.kept + if named then KeptChains(scope, all, t.chains) else []);
    ScanOne(scope, s, header);
    StepTableHeader(scope, s, t);
    ScanPrelude(scope, s1, t.prelude);
    ScanThen(scope, s, [header], s1, t.prelude, s2);
    ScanChains(scope, s2, t.chains);
    ScanThen(scope, s, [header] + t.prelude, s2, chains, s3);
    if all {
      UnscopedKeepsAll(scope, t.chains);
      KeptConcat(s.kept, [header], t.prelude, chains);
    }
  }

  lemma {:induction false} UnscopedKeepsAll(scope: Scope, chains: seq<Chain>)
    requires scope.chain.None?
    ensures KeptChains(scope, true, chains) == PrintChains(chains)
    decreases |chains|
  {
    if chains != [] {
      UnscopedKeepsAll(scope, chains[1..]);
    }
  }

  lemma {:induction false} ScanTables(scope: Scope, s: State, tables: seq<Table>)
    requires (forall t :: t in tables ==> TableOk(t)) && s.depth == 0 && s.inChain == scope.chain.None?
    requires scope.table.None? ==> s.inTable
    ensures Scan(scope, s, Print(tables)).kept == s.kept + Kept(scope, tables)
    ensures Scan(scope, s, Print(tables)).depth == 0
    decreases |tables|
  {
    hide Scan, Step, TableOk, PrintTable, KeptTable, TableNamed;
    if tables == [] {
      ScanNothing(scope, s);
    } else {
      var t := tables[0];
      var s1 := State(0, TableNamed(scope, t), scope.chain.None?, s.kept + KeptTable(scope, t));
      ScanTable(scope, s, t);
      assert scope.table.None? ==> s1.inTable by { AnyTableIsNamed(scope, t); }
      ScanTables(scope, s1, tables[1..]);
      ScanThen(scope, s, PrintTable(t), s1, Print(tables[1..]), Scan(scope, s1, Print(tables[1..])));
    }
  }

  lemma ScanNothing(scope: Scope, s: State)
    ensures Scan(scope, s, []) == s
  {
  }

  lemma AnyTableIsNamed(scope: Scope, t: Table)
    ensures scope.table.None? ==> TableNamed(scope, t)
  {
  }

  /** What `extract_block` returns for any listing, line for line. */
  lemma ExtractsTheNamedBlocks(tables: seq<Table>, table: Option<string>, chain: Option<string>)
    requires forall t :: t in tables ==> TableOk(t)
    ensures var scope := Scope(table, chain);
      Scan(scope, Start(scope), Print(tables)).kept == Kept(scope, tables)
  {
    var scope := Scope(table, chain);
    ScanTables(scope, Start(scope), tables);
  }

  // ---------------------------------------------------------------- the rules

  predicate IsRule(line: string) {
    "\t\t" <= line
  }

  function RuleLines(lines: seq<string>): seq<string> {
    if lines == [] then []
    else (if IsRule(lines[0]) then [lines[0]] else []) + RuleLines(lines[1..])
  }

  /** The rules of the chains with the requested name, in order. */
  ghost function RulesOf(name: string, chains: seq<Chain>): seq<string> {
    if chains == [] then []
    else (if chains[0].name == name then Indent(chains[0].rules) else []) + RulesOf(name, chains[1..])
  }

  ghost function RulesIn(scope: Scope, tables: seq<Table>): seq<string>
    requires scope.chain.Some?
  {
    if tables == [] then []
    else (if TableNamed(scope, tables[0]) then RulesOf(scope.chain.value, tables[0].chains) else [])
         + RulesIn(scope, tables[1..])
  }

  lemma {:induction false} RuleLinesAppend(a: seq<string>, b: seq<string>)
    ensures RuleLines(a + b) == RuleLines(a) + RuleLines(b)
    decreases |a|
  {
    hide IsRule;
    if a == [] {
      assert a + b == b;
    } else {
      assert (a + b)[1..] == a[1..] + b;
      RuleLinesAppend(a[1..], b);
      var first := if IsRule(a[0]) then [a[0]] else [];
      assert RuleLines(a + b) == first + RuleLines((a + b)[1..]);
      assert RuleLines(a) == first + RuleLines(a[1..]);
      hide RuleLines;
      assert first + (RuleLines(a[1..]) + RuleLines(b)) == first + RuleLines(a[1..]) + RuleLines(b);
    }
  }

  lemma {:induction false} RuleLinesOfIndent(rules: seq<string>)
    ensures RuleLines(Indent(rules)) == Indent(rules)
    decreases |rules|
  {
    if rules != [] {
      assert Indent(rules)[1..] == Indent(rules[1..]);
      RuleLinesOfIndent(rules[1..]);
    }
  }

  lemma RuleLinesOfChain(c: Chain)
    ensures RuleLines(PrintChain(c)) == Indent(c.rules)
  {
    hide RuleLines, IsRule, Indent, ChainHeader;
    NotRules(c);
    RuleLinesAppend([ChainHeader(c)], Indent(c.rules));
    RuleLinesAppend([ChainHeader(c)] + Indent(c.rules), ["\t}"]);
    RuleLinesOfIndent(c.rules);
    assert [] + Indent(c.rules) + [] == Indent(c.rules);
  }

  lemma NotRules(c: Chain)
    ensures RuleLines([ChainHeader(c)]) == [] && RuleLines(["\t}"]) == []
    ensures RuleLines(["}"]) == [] && RuleLines([""]) == [] && RuleLines([]) == []
  {
    hide IsRule;
    assert ChainHeader(c)[1] == 'c';
    NotRule(ChainHeader(c));
    NotRule("\t}");
    NotRule("}");
    NotRule("");
  }

  lemma NotRule(line: string)
    requires |line| < 2 || line[1] != '\t'
    ensures RuleLines([line]) == []
  {
  }

  lemma {:induction false} RuleLinesOfChains(scope: Scope, inChain: bool, chains: seq<Chain>)
    requires scope.chain.Some?
    ensures RuleLines(KeptChains(scope, inChain, chains)) == RulesOf(scope.chain.value, chains)
    decreases |chains|
  {
    hide IsRule, RuleLines, PrintChain, Indent, ChainNamed;
    if chains == [] {
      NotRules(Chain("", []));
    } else {
      var c, gap := chains[0], if |chains| > 1 then [""] else [];
      var rest := KeptChains(scope, ChainNamed(scope, c), chains[1..]);
      RuleLinesOfChains(scope, ChainNamed(scope, c), chains[1..]);
      RuleLinesOfOne(scope, c, gap, rest);
    }
  }

  lemma RuleLinesOfOne(scope: Scope, c: Chain, gap: seq<string>, rest: seq<string>)
    requires scope.chain.Some? && (gap == [] || gap == [""])
    ensures RuleLines((if ChainNamed(scope, c) then PrintChain(c) + gap else []) + rest)
         == (if c.name == scope.chain.value then Indent(c.rules) else []) + RuleLines(rest)
  {
    hide IsRule, RuleLines, PrintChain, Indent;
    NotRules(c);
    RuleLinesOfChain(c);
    RuleLinesAppend(PrintChain(c), gap);
    RuleLinesAppend(PrintChain(c) + gap, rest);
    assert [] + rest == rest && Indent(c.rules) + [] == Indent(c.rules);
  }

  /** With a chain named, the rules kept are exactly those of the chains of that name in the
      tables whose header contains the requested text: none from another chain or table, none
      dropped, in listing order. */
  lemma {:induction false} KeptRulesAreTheChainsRules(scope: Scope, tables: seq<Table>)
    requires scope.chain.Some?
    ensures RuleLines(Kept(scope, tables)) == RulesIn(scope, tables)
    decreases |tables|
  {
    hide IsRule, KeptChains, RulesOf, TableNamed;
    if tables != [] {
      RuleLinesAppend(KeptTable(scope, tables[0]), Kept(scope, tables[1..]));
      RuleLinesOfChains(scope, false, tables[0].chains);
      KeptRulesAreTheChainsRules(scope, tables[1..]);
    }
  }

  // ---------------------------------------------------------------- brace depth

  /** The scanner's depth depends on the lines alone. */
  lemma {:induction false} ScanDepth(scope: Scope, s: State, lines: seq<string>)
    ensures Scan(scope, s, lines).depth == DepthAfterAll(s.depth, lines)
    decreases |lines|
  {
    hide DepthAfter;
    if lines != [] {
      StepDepth(scope, s, lines[0]);
      ScanDepth(scope, Step(scope, s, lines[0]), lines[1..]);
    }
  }

  lemma StepDepth(scope: Scope, s: State, line: string)
    ensures Step(scope, s, line).depth == DepthAfter(s.depth, line)
  {
    hide Words, Count, Trim, Contains;
  }

  lemma {:induction false} DepthConcat(depth: nat, a: seq<string>, b: seq<string>)
    ensures DepthAfterAll(depth, a + b) == DepthAfterAll(DepthAfterAll(depth, a), b)
    decreases |a|
  {
    hide DepthAfter;
    if a == [] {
      assert a + b == b;
    } else {
      assert (a + b)[1..] == a[1..] + b;
      DepthConcat(DepthAfter(depth, a[0]), a[1..], b);
    }
  }

  /** The depth is above 0 before, between and after the lines. */
  ghost predicate Inside(depth: nat, lines: seq<string>)
    decreases |lines|
  {
    depth > 0 && (lines != [] ==> Inside(DepthAfter(depth, lines[0]), lines[1..]))
  }

  lemma {:induction false} InsideAtEveryLine(depth: nat, lines: seq<string>)
    ensures Inside(depth, lines) <==> forall n :: 0 <= n <= |lines| ==> DepthAfterAll(depth, lines[..n]) > 0
    decreases |lines|
  {
    hide DepthAfter;
    if lines == [] {
      assert lines[..0] == [];
    } else {
      var next := DepthAfter(depth, lines[0]);
      InsideAtEveryLine(next, lines[1..]);
      forall n | 0 < n <= |lines|
        ensures DepthAfterAll(depth, lines[..n]) == DepthAfterAll(next, lines[1..][..n - 1])
      {
        assert lines[..n][1..] == lines[1..][..n - 1];
      }
      assert lines[..0] == [];
      if Inside(depth, lines) {
        forall n | 0 <= n <= |lines| ensures DepthAfterAll(depth, lines[..n]) > 0 {
          if n > 0 {
            assert DepthAfterAll(next, lines[1..][..n - 1]) > 0;
          }
        }
      }
      if forall n :: 0 <= n <= |lines| ==> DepthAfterAll(depth, lines[..n]) > 0 {
        assert DepthAfterAll(depth, lines[..0]) > 0;
        forall n | 0 <= n <= |lines[1..]| ensures DepthAfterAll(next, lines[1..][..n]) > 0 {
          assert DepthAfterAll(depth, lines[..n + 1]) > 0;
        }
      }
    }
  }

  lemma {:induction false} InsideConcat(depth: nat, a: seq<string>, b: seq<string>)
    ensures Inside(depth, a + b) <==> Inside(depth, a) && Inside(DepthAfterAll(depth, a), b)
    decreases |a|
  {
    hide DepthAfter;
    if a == [] {
      assert a + b == b;
    } else {
      assert (a + b)[1..] == a[1..] + b;
      InsideConcat(DepthAfter(depth, a[0]), a[1..], b);
    }
  }

  /** A piece of a listing that is entered at depth 1, never leaves it, and ends at depth 1. */
  ghost predicate Level(lines: seq<string>) {
    Inside(1, lines) && DepthAfterAll(1, lines) == 1
  }

  lemma LevelConcat(a: seq<string>, b: seq<string>)
    requires Level(a) && Level(b)
    ensures Level(a + b)
  {
    hide DepthAfterAll, Inside;
    DepthConcat(1, a, b);
    InsideConcat(1, a, b);
  }

  lemma {:induction false} RulesStayInside(rules: seq<string>)
    requires forall r :: r in rules ==> PlainLine(r) && Count(Trim(r), '{') == Count(Trim(r), '}')
    ensures Inside(2, Indent(rules)) && DepthAfterAll(2, Indent(rules)) == 2
    decreases |rules|
  {
    hide DepthAfter, PlainLine, Trim, Count;
    if rules != [] {
      var s := State(2, false, false, []);
      StepRule(Scope(None, None), s, rules[0]);
      StepDepth(Scope(None, None), s, "\t\t" + rules[0]);
      hide Step;
      assert Indent(rules)[1..] == Indent(rules[1..]);
      RulesStayInside(rules[1..]);
    }
  }

  lemma ChainIsLevel(c: Chain)
    requires ChainOk(c)
    ensures Level(PrintChain(c))
  {
    var scope, s1, s2 := Scope(None, None), State(1, false, true, []), State(2, false, false, []);
    var header, rules := ChainHeader(c), Indent(c.rules);
    StepChainHeader(scope, s1, c);
    StepDepth(scope, s1, header);
    StepClosing(scope, s2, "\t}");
    StepDepth(scope, s2, "\t}");
    RulesAreOk(c);
    RulesStayInside(c.rules);
    hide Step, DepthAfter, ChainHeader, Indent, ChainOk, PlainLine, Trim, Count;
    OneLine(1, header);
    OneLine(2, "\t}");
    DepthConcat(1, [header], rules);
    InsideConcat(1, [header], rules);
    DepthConcat(1, [header] + rules, ["\t}"]);
    InsideConcat(1, [header] + rules, ["\t}"]);
  }

  lemma OneLine(depth: nat, line: string)
    ensures DepthAfterAll(depth, [line]) == DepthAfter(depth, line)
    ensures Inside(depth, [line]) <==> depth > 0 && DepthAfter(depth, line) > 0
  {
    hide DepthAfter;
    assert [line][1..] == [];
  }

  /** What a table prints of its chains before its own closing brace. */
  function ChainLines(chains: seq<Chain>): seq<string> {
    if chains == [] then []
    else PrintChain(chains[0]) + (if |chains| > 1 then [""] else []) + ChainLines(chains[1..])
  }

  lemma {:induction false} ChainsThenBrace(chains: seq<Chain>)
    ensures PrintChains(chains) == ChainLines(chains) + ["}"]
  {
    hide PrintChain;
    if chains != [] {
      ChainsThenBrace(chains[1..]);
    }
  }

  lemma GapIsLevel()
    ensures Level([""]) && Level([])
  {
    var s := State(1, false, false, []);
    StepBlank(Scope(None, None), s);
    StepDepth(Scope(None, None), s, "");
    hide Step, DepthAfter;
    OneLine(1, "");
  }

  lemma {:induction false} ChainsAreLevel(chains: seq<Chain>)
    requires forall c :: c in chains ==> ChainOk(c)
    ensures Level(ChainLines(chains))
  {
    GapIsLevel();
    if chains != [] {
      ChainIsLevel(chains[0]);
      ChainsAreLevel(chains[1..]);
      hide Level, ChainOk, PrintChain;
      var gap := if |chains| > 1 then [""] else [];
      LevelConcat(PrintChain(chains[0]), gap);
      LevelConcat(PrintChain(chains[0]) + gap, ChainLines(chains[1..]));
    }
  }

  /** What stands between the header and the closing brace of a table. */
  function Body(t: Table): seq<string> {
    t.prelude + ChainLines(t.chains)
  }

  lemma TableIsBody(t: Table)
    requires TableOk(t)
    ensures PrintTable(t) == [TableHeader(t)] + Body(t) + ["}"]
    ensures DepthAfter(0, TableHeader(t)) == 1 && DepthAfter(1, "}") == 0
    ensures DepthAfterAll(1, Body(t)) == 1 && (Inside(1, Body(t)) <==> Inside(1, t.prelude))
  {
    EndsOfTable(t);
    PartsOfTable(t);
    ChainsThenBrace(t.chains);
    ChainsAreLevel(t.chains);
    hide DepthAfter, Inside, TableOk, PrintTable, TableHeader, PrintChains, ChainLines, DepthAfterAll, Step;
    DepthConcat(1, t.prelude, ChainLines(t.chains));
    InsideConcat(1, t.prelude, ChainLines(t.chains));
    Regroup([TableHeader(t)], t.prelude, ChainLines(t.chains), ["}"]);
  }

  lemma PartsOfTable(t: Table)
    requires TableOk(t)
    ensures PrintTable(t) == [TableHeader(t)] + t.prelude + PrintChains(t.chains)
    ensures DepthAfterAll(1, t.prelude) == 1 && forall c :: c in t.chains ==> ChainOk(c)
  {
    hide ChainOk, PlainLine, DepthAfterAll, TableHeader, PrintChains;
  }

  lemma Regroup(a: seq<string>, b: seq<string>, c: seq<string>, d: seq<string>)
    ensures a + b + (c + d) == a + (b + c) + d
  {
  }

  lemma EndsOfTable(t: Table)
    requires TableOk(t)
    ensures DepthAfter(0, TableHeader(t)) == 1 && DepthAfter(1, "}") == 0
  {
    hide ChainOk, PlainLine, DepthAfterAll, DepthAfter, TableHeader;
    var scope, s0, s1 := Scope(None, None), State(0, true, true, []), State(1, true, true, []);
    StepTableHeader(scope, s0, t);
    StepDepth(scope, s0, TableHeader(t));
    StepClosing(scope, s1, "}");
    StepDepth(scope, s1, "}");
  }

  lemma TableDepth(t: Table, n: nat)
    requires TableOk(t) && n <= |PrintTable(t)|
    ensures |PrintTable(t)| == |Body(t)| + 2
    ensures DepthAfterAll(0, PrintTable(t)[..n])
         == if n == 0 || n == |PrintTable(t)| then 0 else DepthAfterAll(1, Body(t)[..n - 1])
  {
    TableIsBody(t);
    hide TableOk, Inside, DepthAfter, TableHeader, PrintTable, Body;
    var lines, body := PrintTable(t), Body(t);
    if n == 0 {
      assert lines[..0] == [];
    } else if n == |lines| {
      assert lines[..n] == [TableHeader(t)] + body + ["}"];
      DepthConcat(0, [TableHeader(t)] + body, ["}"]);
      DepthConcat(0, [TableHeader(t)], body);
      OneLine(0, TableHeader(t));
      OneLine(1, "}");
    } else {
      assert lines[..n] == [TableHeader(t)] + body[..n - 1];
      DepthConcat(0, [TableHeader(t)], body[..n - 1]);
      OneLine(0, TableHeader(t));
    }
  }

  /** Between a table's first and last line the depth is above 0, exactly if it is so throughout
      what the table lists before its chains. */
  lemma TableStaysOpen(t: Table)
    requires TableOk(t)
    ensures (forall n :: 0 < n < |PrintTable(t)| ==> DepthAfterAll(0, PrintTable(t)[..n]) > 0)
       <==> Inside(1, t.prelude)
  {
    hide TableOk, Inside, PrintTable, Body, DepthAfterAll;
    TableIsBody(t);
    TableDepth(t, 0);
    InsideAtEveryLine(1, Body(t));
    forall n | 0 < n < |PrintTable(t)|
      ensures DepthAfterAll(0, PrintTable(t)[..n]) == DepthAfterAll(1, Body(t)[..n - 1])
    {
      TableDepth(t, n);
    }
    if forall n :: 0 < n < |PrintTable(t)| ==> DepthAfterAll(0, PrintTable(t)[..n]) > 0 {
      forall n | 0 <= n <= |Body(t)| ensures DepthAfterAll(1, Body(t)[..n]) > 0 {
        assert DepthAfterAll(0, PrintTable(t)[..n + 1]) > 0;
      }
    }
  }

  ghost predicate AtTableEnd(tables: seq<Table>, n: nat) {
    exists k :: 0 <= k <= |tables| && n == |Print(tables[..k])|
  }

  lemma {:induction false} PrintIsLonger(tables: seq<Table>, k: nat)
    requires k < |tables|
    ensures |Print(tables[..k + 1])| == |PrintTable(tables[0])| + |Print(tables[1..][..k])|
  {
    hide PrintTable;
    assert tables[..k + 1][1..] == tables[1..][..k];
  }

  lemma AtTableEndUnfolds(tables: seq<Table>, n: nat)
    requires tables != []
    ensures AtTableEnd(tables, n)
       <==> n == 0 || (n >= |PrintTable(tables[0])| && AtTableEnd(tables[1..], n - |PrintTable(tables[0])|))
  {
    hide PrintTable;
    if AtTableEnd(tables, n) && n > 0 {
      var k :| 0 <= k <= |tables| && n == |Print(tables[..k])|;
      assert k > 0;
      PrintIsLonger(tables, k - 1);
    }
    if n == 0 {
      assert |Print(tables[..0])| == 0;
    } else if n >= |PrintTable(tables[0])| && AtTableEnd(tables[1..], n - |PrintTable(tables[0])|) {
      var k :| 0 <= k <= |tables[1..]| && n - |PrintTable(tables[0])| == |Print(tables[1..][..k])|;
      PrintIsLonger(tables, k);
      assert n == |Print(tables[..k + 1])|;
    }
  }

  /** After `n` lines of the listing the depth is 0 exactly if a table ends there. */
  ghost predicate ZeroExactlyAtEnds(tables: seq<Table>, n: nat)
    requires n <= |Print(tables)|
  {
    DepthAfterAll(0, Print(tables)[..n]) == 0 <==> AtTableEnd(tables, n)
  }

  lemma PrintFirst(tables: seq<Table>)
    requires tables != []
    ensures Print(tables) == PrintTable(tables[0]) + Print(tables[1..])
  {
  }

  lemma TableEndsAtZero(t: Table)
    requires TableOk(t)
    ensures DepthAfterAll(0, PrintTable(t)) == 0
  {
    TableDepth(t, |PrintTable(t)|);
    hide *;
    assert PrintTable(t)[..|PrintTable(t)|] == PrintTable(t);
  }

  lemma DepthOfRest(tables: seq<Table>, n: nat)
    requires tables != [] && TableOk(tables[0]) && n <= |Print(tables)|
    ensures var first := PrintTable(tables[0]);
      if n < |first| then Print(tables)[..n] == first[..n]
      else DepthAfterAll(0, Print(tables)[..n]) == DepthAfterAll(0, Print(tables[1..])[..n - |first|])
  {
    hide *;
    PrintFirst(tables);
    TableEndsAtZero(tables[0]);
    var first, rest := PrintTable(tables[0]), Print(tables[1..]);
    if n >= |first| {
      DepthAfterWhole(first, rest, n);
    } else {
      assert (first + rest)[..n] == first[..n];
    }
  }

  lemma DepthAfterWhole(first: seq<string>, rest: seq<string>, n: nat)
    requires |first| <= n <= |first| + |rest| && DepthAfterAll(0, first) == 0
    ensures DepthAfterAll(0, (first + rest)[..n]) == DepthAfterAll(0, rest[..n - |first|])
  {
    hide DepthAfterAll;
    assert (first + rest)[..n] == first + rest[..n - |first|];
    DepthConcat(0, first, rest[..n - |first|]);
  }

  /** The depth of a listing is 0 exactly where tables end, and nowhere inside one, if and only if no
      table lists lines before its chains that close it early. */
  lemma {:induction false} DepthIsZeroExactlyAtTableEnds(tables: seq<Table>)
    requires forall t :: t in tables ==> TableOk(t)
    ensures (forall n :: 0 <= n <= |Print(tables)| ==> ZeroExactlyAtEnds(tables, n))
       <==> (forall t :: t in tables ==> Inside(1, t.prelude))
    decreases |tables|
  {
    hide TableOk, PrintTable, DepthAfterAll, Inside, AtTableEnd;
    if tables == [] {
      NothingEndsAtOnce();
    } else {
      var t, rest := tables[0], tables[1..];
      DepthIsZeroExactlyAtTableEnds(rest);
      TableStaysOpen(t);
      forall n | 0 <= n <= |Print(tables)|
        ensures ZeroExactlyAtEnds(tables, n)
           <==> if n == 0 then true
                else if n < |PrintTable(t)| then DepthAfterAll(0, PrintTable(t)[..n]) > 0
                else ZeroExactlyAtEnds(rest, n - |PrintTable(t)|)
      {
        DepthOfRest(tables, n);
        AtTableEndUnfolds(tables, n);
        if n == 0 {
          DepthOfNothing(Print(tables));
        }
      }
      assert tables == [t] + rest;
      hide ZeroExactlyAtEnds;
      if forall n :: 0 <= n <= |Print(tables)| ==> ZeroExactlyAtEnds(tables, n) {
        forall n | 0 <= n <= |Print(rest)| ensures ZeroExactlyAtEnds(rest, n) {
          TableHasLines(t);
          assert ZeroExactlyAtEnds(tables, n + |PrintTable(t)|);
        }
        forall n | 0 < n < |PrintTable(t)| ensures DepthAfterAll(0, PrintTable(t)[..n]) > 0 {
          assert ZeroExactlyAtEnds(tables, n);
        }
      }
    }
  }

  lemma NothingEndsAtOnce()
    ensures ZeroExactlyAtEnds([], 0)
  {
    assert Print([][..0]) == [];
  }

  lemma DepthOfNothing(lines: seq<string>)
    ensures DepthAfterAll(0, lines[..0]) == 0
  {
  }

  lemma TableHasLines(t: Table)
    ensures |PrintTable(t)| > 0
  {
  }
}
