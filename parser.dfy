/**
 * TableDrivenParser.java: the predictive parser.  The input is trimmed,
 * stripped of whitespace and ended with '$'; the stack starts as "$" under
 * the start symbol, and each round either accepts, matches a terminal,
 * expands a non-terminal by the table, or raises a SyntaxException.
 */
module Parsers {
  import opened Wrappers
  import opened Symbols
  import opened BnfText
  import opened Grammars
  import opened FirstFollow
  import opened ParseTables

  /** The text parse works on: trimmed, every whitespace character removed, '$' appended. */
  function Normalize(inputString: string): (r: string)
    ensures |r| >= 1 && r[|r| - 1] == EndMarker
    ensures forall k :: 0 <= k < |r| - 1 ==> !IsWhitespace(r[k])
  {
    StripWhitespace(Trim(inputString)) + [EndMarker]
  }

  /**
   * When every blank character of the argument is whitespace (no other
   * control character), the working input is the argument with its
   * whitespace removed, then '$'.
   */
  lemma NormalizeDropsWhitespace(inputString: string)
    requires forall k :: 0 <= k < |inputString| && IsBlank(inputString[k]) ==> IsWhitespace(inputString[k])
    ensures Normalize(inputString) == StripWhitespace(inputString) + [EndMarker]
  {
    StripTrimmed(inputString);
  }

  /** The two SyntaxException messages: the symbol read, and the non-terminal that could not be expanded. */
  datatype Reason = UnrecognizedSymbol(symbol: char) | UnableToExpand(nonTerminal: string, symbol: char)

  /**
   * How parse ends: it returns true, it throws a SyntaxException, or it is
   * still going when the step budget runs out (the source loops for ever,
   * or until the stack exhausts memory).
   */
  datatype Verdict = Accepted | Rejected(reason: Reason) | Undecided

  /** The parser's own part of the stack (top last) and its input position. */
  datatype Config = Config(stack: seq<string>, index: nat)

  /** One round of the loop: accept, throw, or go on from a new configuration. */
  datatype Move = Accept | Reject(reason: Reason) | Continue(next: Config)

  /** The stack as parse pushes it: "$" under the start symbol, at the start of the input. */
  function Initial(g: Grammar): Config
  {
    Config([[EndMarker], g.start], 0)
  }

  /**
   * A configuration the loop can work on: the input ends with '$', the
   * parser's "$" is still at the bottom, and the position is on the input.
   */
  predicate Sane(input: string, c: Config)
  {
    |input| > 0 && input[|input| - 1] == EndMarker &&
    c.stack != [] && c.stack[0] == [EndMarker] && c.index < |input|
  }

  function Top(c: Config): string
    requires c.stack != []
  {
    c.stack[|c.stack| - 1]
  }

  /**
   * One round of the loop.  "$" on top with '$' next accepts; a terminal on
   * top must equal the next character and is popped; a non-terminal on top
   * is replaced by the body in its table cell for the next character, the
   * body's first symbol on top; a top that is neither leaves everything as
   * it was.
   */
  function Step(g: Grammar, cells: Cells, input: string, c: Config): (m: Move)
    requires EndMarker in g.terminals && Sane(input, c)
    ensures m.Accept? <==> Top(c) == [EndMarker] && input[c.index] == EndMarker
    ensures m.Continue? ==> Sane(input, m.next)
    ensures m.Continue? && m.next.index != c.index ==>
      m.next.index == c.index + 1 && Top(c) == [input[c.index]] && input[c.index] != EndMarker
  {
    var top := Top(c);
    var ch := input[c.index];
    var rest := c.stack[..|c.stack| - 1];
    if top == [EndMarker] && ch == EndMarker then Accept
    else if ContainsTerminalSymbol(g, top) then
      if top == [ch] then Continue(Config(rest, c.index + 1))
      else Reject(UnrecognizedSymbol(ch))
    else if ContainsNonTerminal(g, top) then
      match Lookup(cells, top, Char(ch))
      case Some(body) => Continue(Config(rest + Reverse(FromBnf(body)), c.index))
      case None => Reject(UnableToExpand(top, ch))
    else Continue(c)
  }

  /** Up to `fuel` rounds from c: the verdict and the configuration the loop stops in. */
  function Run(g: Grammar, cells: Cells, input: string, c: Config, fuel: nat): (r: (Verdict, Config))
    requires EndMarker in g.terminals && Sane(input, c)
    ensures Sane(input, r.1)
    ensures r.0 == Accepted ==> Top(r.1) == [EndMarker] && input[r.1.index] == EndMarker
    decreases fuel
  {
    if fuel == 0 then (Undecided, c)
    else
      match Step(g, cells, input, c)
      case Accept => (Accepted, c)
      case Reject(reason) => (Rejected(reason), c)
      case Continue(next) => Run(g, cells, input, next, fuel - 1)
  }

  /**
   * A verdict reached within one budget is reached, unchanged, within any
   * larger one: the budget only decides how long the loop may go on.
   */
  lemma {:induction false} RunSettles(g: Grammar, cells: Cells, input: string, c: Config, fuel: nat, more: nat)
    requires EndMarker in g.terminals && Sane(input, c)
    requires fuel <= more && Run(g, cells, input, c, fuel).0 != Undecided
    ensures Run(g, cells, input, c, more) == Run(g, cells, input, c, fuel)
    decreases fuel
  {
    match Step(g, cells, input, c)
    case Accept =>
    case Reject(_) =>
    case Continue(next) =>
      RunSettles(g, cells, input, next, fuel - 1, more - 1);
  }

  /** Popping the top and pushing `pushed` acts on the part of the stack above `bottom` alone. */
  lemma SlicePopPush(s: seq<string>, bottom: nat, pushed: seq<string>)
    requires bottom < |s|
    ensures (s[..|s| - 1] + pushed)[..bottom] == s[..bottom]
    ensures (s[..|s| - 1] + pushed)[bottom..] == s[bottom..][..|s| - 1 - bottom] + pushed
  {
  }

  class TableDrivenParser {
    const grammar: Grammar
    const parseTable: ParseTable
    var stack: seq<string>

    constructor Init(grammar: Grammar, parseTable: ParseTable)
      ensures this.grammar == grammar && this.parseTable == parseTable && stack == []
    {
      this.grammar := grammar;
      this.parseTable := parseTable;
      stack := [];
    }

    /**
     * The constructor of the source: a fresh table for the grammar, filled
     * by generate, whose error is the constructor's.
     */
    static method Create(grammar: Grammar, fuel: nat) returns (r: Result<TableDrivenParser, Error>)
      ensures r.Failure? <==> Fill(grammar, grammar.rules, map[], fuel).error.Some?
      ensures r.Failure? ==> Fill(grammar, grammar.rules, map[], fuel).error == Some(r.error)
      ensures r.Success? ==>
        && fresh(r.value) && fresh(r.value.parseTable)
        && r.value.grammar == grammar && r.value.stack == []
        && r.value.parseTable.table == Fill(grammar, grammar.rules, map[], fuel).cells
    {
      var table := new ParseTable(grammar);
      var error := table.Generate(fuel);
      if error.Some? {
        return Failure(error.value);
      }
      var parser := new TableDrivenParser.Init(grammar, table);
      return Success(parser);
    }

    /**
     * parse: runs the loop for at most `fuel` rounds.  On acceptance the
     * stack is cleared; a SyntaxException leaves whatever the loop had
     * pushed on top of the old stack.
     */
    method Parse(inputString: string, fuel: nat) returns (verdict: Verdict)
      requires EndMarker in grammar.terminals
      modifies this
      ensures Sane(Normalize(inputString), Initial(grammar))
      ensures verdict == Run(grammar, parseTable.table, Normalize(inputString), Initial(grammar), fuel).0
      ensures stack == if verdict == Accepted then [] else
        old(stack) + Run(grammar, parseTable.table, Normalize(inputString), Initial(grammar), fuel).1.stack
    {
      var input := StripWhitespace(Trim(inputString));
      input := input + [EndMarker];
      var index: nat := 0;
      var bottom := |stack|;
      stack := stack + [[EndMarker]];
      stack := stack + [grammar.start];
      assert stack[bottom..] == Initial(grammar).stack;
      var steps := fuel;
      ghost var outcome := Run(grammar, parseTable.table, input, Initial(grammar), fuel);
      while true
        invariant bottom <= |stack| && stack[..bottom] == old(stack)
        invariant Sane(input, Config(stack[bottom..], index))
        invariant Run(grammar, parseTable.table, input, Config(stack[bottom..], index), steps) == outcome
        decreases steps
      {
        if steps == 0 {
          assert stack == stack[..bottom] + stack[bottom..];
          return Undecided;
        }
        var move := Round(input, index, bottom);
        match move {
          case Accept =>
            break;
          case Reject(reason) =>
            assert stack == stack[..bottom] + stack[bottom..];
            return Rejected(reason);
          case Continue(next) =>
            index := next.index;
            steps := steps - 1;
        }
      }
      stack := [];
      verdict := Accepted;
    }

    /**
     * One pass of the body of parse's loop over the parser's part of the
     * stack, stack[bottom..]: accept, throw, match a terminal, expand a
     * non-terminal by the table, or, for a top that is neither, do nothing.
     */
    method Round(input: string, index: nat, bottom: nat) returns (move: Move)
      requires EndMarker in grammar.terminals
      requires bottom <= |stack| && Sane(input, Config(stack[bottom..], index))
      modifies this
      ensures move == Step(grammar, parseTable.table, input, Config(old(stack)[bottom..], index))
      ensures bottom <= |stack| && stack[..bottom] == old(stack)[..bottom]
      ensures move.Continue? ==> stack[bottom..] == move.next.stack
      ensures !move.Continue? ==> stack == old(stack)
    {
      ghost var c := Config(stack[bottom..], index);
      var topOfStack := stack[|stack| - 1];
      assert topOfStack == Top(c);
      if topOfStack == [EndMarker] && input[index] == EndMarker {
        return Accept;
      } else if ContainsTerminalSymbol(grammar, topOfStack) {
        if topOfStack == [input[index]] {
          stack := stack[..|stack| - 1];
          SlicePopPush(old(stack), bottom, []);
          return Continue(Config(stack[bottom..], index + 1));
        }
        return Reject(UnrecognizedSymbol(input[index]));
      } else if ContainsNonTerminal(grammar, topOfStack) {
        var result := parseTable.RuleToApply(topOfStack, Char(input[index]));
        if result.Some? {
          var rule := result.value;
          Expand(rule);
          SlicePopPush(old(stack), bottom, Reverse(FromBnf(rule)));
          return Continue(Config(stack[bottom..], index));
        }
        return Reject(UnableToExpand(topOfStack, input[index]));
      } else {
        return Continue(Config(stack[bottom..], index));
      }
    }

    /** The expansion in parse: the non-terminal popped, then the body pushed, its first symbol on top. */
    method Expand(rule: Body)
      requires stack != []
      modifies this
      ensures stack == old(stack)[..|old(stack)| - 1] + Reverse(FromBnf(rule))
    {
      stack := stack[..|stack| - 1];
      if !IsEpsilonProduction(rule) {
        var symbols := FromBnf(rule);
        PushReversed(symbols);
      }
    }

    /** Pushes the symbols from the last to the first, leaving the first on top. */
    method PushReversed(symbols: seq<string>)
      modifies this
      ensures stack == old(stack) + Reverse(symbols)
    {
      var j := |symbols|;
      while j > 0
        invariant 0 <= j <= |symbols|
        invariant stack == old(stack) + Reverse(symbols[j..])
      {
        j := j - 1;
        ReverseCons(symbols[j], symbols[j + 1..]);
        assert symbols[j..] == [symbols[j]] + symbols[j + 1..];
        stack := stack + [symbols[j]];
      }
    }
  }
}
