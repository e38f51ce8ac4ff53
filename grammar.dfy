/**
 * The grammar model of Grammar.java: start symbol, terminal set and the
 * productions in the order they were read, with the queries the analysis,
 * the table builder and the parser ask of it.
 */
module Grammars {
  import opened Wrappers
  import opened Symbols
  import BnfText

  /**
   * A grammar.  `rules` is the multimap from heads to bodies, kept as the
   * list of productions in reading order.  Terminals are one character each;
   * the end marker '$' is added by the line parser.
   */
  datatype Grammar = Grammar(start: string, terminals: set<char>, rules: seq<Rule>)

  /**
   * The errors a grammar query raises: BNFGrammarException for a
   * non-terminal that is not in the grammar, and OutOfFuel where the source
   * would recurse or loop without end (the fuel bound is a modelling device).
   */
  datatype Error = UnknownSymbol(name: string) | OutOfFuel

  /** containsNonTerminal: some production has this head. */
  predicate ContainsNonTerminal(g: Grammar, symbol: string)
  {
    exists r :: r in g.rules && r.head == symbol
  }

  /** containsTerminalSymbol: the one-character string of a terminal. */
  predicate ContainsTerminalSymbol(g: Grammar, symbol: string)
  {
    |symbol| == 1 && symbol[0] in g.terminals
  }

  /** isStartSymbol: fails on a non-terminal that is not in the grammar. */
  function IsStartSymbol(g: Grammar, nonTerminal: string): (r: Result<bool, Error>)
    ensures r.Failure? <==> !ContainsNonTerminal(g, nonTerminal)
    ensures r.Failure? ==> r.error == UnknownSymbol(nonTerminal)
    ensures r.Success? ==> (r.value <==> nonTerminal == g.start)
  {
    if !ContainsNonTerminal(g, nonTerminal) then Failure(UnknownSymbol(nonTerminal))
    else Success(g.start == nonTerminal)
  }

  /**
   * isEpsilonProduction: the source asks whether the stored body text is
   * empty; a body of symbols is empty exactly when its text is.
   */
  predicate IsEpsilonProduction(body: Body): (r: bool)
    ensures r <==> BnfText.ToBnf(body) == ""
  {
    body == []
  }

  /** numberOfProductions: every production counts, duplicates included. */
  function NumberOfProductions(g: Grammar): nat
  {
    |g.rules|
  }

  /** The bodies of the productions of a head, in reading order. */
  function BodiesOf(rs: seq<Rule>, head: string): (r: seq<Body>)
    ensures |r| <= |rs|
    ensures forall b :: b in r <==> Rule(head, b) in rs
  {
    if rs == [] then []
    else (if rs[0].head == head then [rs[0].body] else []) + BodiesOf(rs[1..], head)
  }

  /**
   * The bodies of a head are listed production by production: one entry
   * for each production of the head, duplicates included, in reading order.
   */
  lemma {:induction false} BodiesOfConcat(a: seq<Rule>, b: seq<Rule>, head: string)
    ensures BodiesOf(a + b, head) == BodiesOf(a, head) + BodiesOf(b, head)
    decreases |a|
  {
    if a == [] {
      assert a + b == b;
    } else {
      assert (a + b)[0] == a[0] && (a + b)[1..] == a[1..] + b;
      BodiesOfConcat(a[1..], b, head);
      var first := if a[0].head == head then [a[0].body] else [];
      assert first + (BodiesOf(a[1..], head) + BodiesOf(b, head))
        == (first + BodiesOf(a[1..], head)) + BodiesOf(b, head);
    }
  }

  /** A single production contributes its body exactly when it has that head. */
  lemma BodiesOfOne(r: Rule, head: string)
    ensures BodiesOf([r], head) == if r.head == head then [r.body] else []
  {
    assert [r][1..] == [];
  }

  /** productionHeadsWith: the bodies of a declared non-terminal. */
  function ProductionHeadsWith(g: Grammar, nonTerminal: string): (r: Result<seq<Body>, Error>)
    ensures r.Failure? <==> !ContainsNonTerminal(g, nonTerminal)
    ensures r.Success? ==> r.value != [] && forall b :: b in r.value <==> Rule(nonTerminal, b) in g.rules
    ensures r.Success? ==> r.value == BodiesOf(g.rules, nonTerminal)
  {
    if !ContainsNonTerminal(g, nonTerminal) then Failure(UnknownSymbol(nonTerminal))
    else
      var r :| r in g.rules && r.head == nonTerminal;
      assert Rule(nonTerminal, r.body) == r;
      Success(BodiesOf(g.rules, nonTerminal))
  }

  /**
   * The test findRulesWithNonTerminalInBody applies: the body mentions <x>
   * and the production is not one of x's own.
   */
  predicate MentionsElsewhere(r: Rule, x: string)
  {
    N(x) in r.body && r.head != x
  }

  /** The productions that pass that test, in reading order. */
  function RulesWithNonTerminalInBody(rs: seq<Rule>, x: string): (r: seq<Rule>)
    ensures forall q :: q in r <==> q in rs && MentionsElsewhere(q, x)
  {
    if rs == [] then []
    else
      RulesWithNonTerminalInBody(rs[..|rs| - 1], x)
        + (if MentionsElsewhere(rs[|rs| - 1], x) then [rs[|rs| - 1]] else [])
  }

  /**
   * findRulesWithNonTerminalInBody: scans every production and keeps those
   * whose body mentions <x> under another head, in order.
   */
  method FindRulesWithNonTerminalInBody(g: Grammar, x: string) returns (list: seq<Rule>)
    ensures list == RulesWithNonTerminalInBody(g.rules, x)
    ensures forall q :: q in list <==> q in g.rules && N(x) in q.body && q.head != x
  {
    list := [];
    var i := 0;
    while i < |g.rules|
      invariant 0 <= i <= |g.rules|
      invariant list == RulesWithNonTerminalInBody(g.rules[..i], x)
    {
      var entry := g.rules[i];
      if N(x) in entry.body && entry.head != x {
        list := list + [entry];
      }
      assert g.rules[..i + 1][..i] == g.rules[..i];
      i := i + 1;
    }
    assert g.rules[..i] == g.rules;
  }
}
