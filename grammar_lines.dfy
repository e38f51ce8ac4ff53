/**
 * The grammar line parser of Grammar.java (Grammar.parse): each line
 * `<Head> ::= body` becomes a production, the quoted characters of each body
 * become terminals, and the start symbol is read off the first line.  The
 * lines are given as a sequence; reading them from a file is not modelled.
 */
module GrammarLines {
  import opened Wrappers
  import opened Symbols
  import opened BnfText
  import opened Grammars

  /**
   * Why a grammar could not be read.  UnbracketedHead is the source's
   * BNFGrammarException; NoProductions, NoStartSymbol, MissingField and
   * DanglingQuote are the index exceptions the source runs into (an empty
   * list, a first line without a '>' after its first character, a line
   * without "::=" or without text after it, a quote as the last character);
   * MalformedBody is a body text that does not read as symbols.
   */
  datatype LineError =
    | NoProductions
    | NoStartSymbol
    | MissingField(line: nat)
    | UnbracketedHead(line: nat)
    | DanglingQuote(line: nat)
    | MalformedBody(line: nat)

  /** The head test: the trimmed head starts with '<' and ends with '>'. */
  predicate Bracketed(head: string)
  {
    |head| > 0 && head[0] == '<' && head[|head| - 1] == '>'
  }

  /**
   * One body text under the head `name`: exactly '' is an empty body and
   * registers nothing; otherwise the quoted characters are the terminals it
   * registers and the text is read as symbols.
   */
  function ParseBody(name: string, text: string, n: nat): (r: Result<(Rule, set<char>), LineError>)
    ensures r.Success? ==> r.value.0.head == name
    ensures r.Failure? ==> r.error in {DanglingQuote(n), MalformedBody(n)}
  {
    if text == "''" then Success((Rule(name, []), {}))
    else
      match QuotedChars(text)
      case None => Failure(DanglingQuote(n))
      case Some(ts) =>
        match Tokenize(text)
        case None => Failure(MalformedBody(n))
        case Some(b) => Success((Rule(name, b), ts))
  }

  /**
   * The fields of one line: the head must be bracketed and a body text must
   * follow it.
   */
  function ParseFields(fields: seq<string>, n: nat): Result<(Rule, set<char>), LineError>
  {
    if |fields| == 0 then Failure(MissingField(n))
    else
      var head := Trim(fields[0]);
      if !Bracketed(head) then Failure(UnbracketedHead(n))
      else if |fields| < 2 then Failure(MissingField(n))
      else ParseBody(head[1..|head| - 1], Trim(fields[1]), n)
  }

  /** One line: the production it adds and the terminals it registers. */
  function ParseLine(line: string, n: nat): Result<(Rule, set<char>), LineError>
  {
    ParseFields(Fields(line), n)
  }

  /** The outcome of one line, with the rule and the terminals it adds. */
  type Outcome = Result<(Rule, set<char>), LineError>

  /** What the lines read so far amount to: the rules in order and the terminals. */
  type Reading = Result<(seq<Rule>, set<char>), LineError>

  /** Each line read on its own, numbered from 0. */
  function Outcomes(lines: seq<string>): (os: seq<Outcome>)
    ensures |os| == |lines|
    ensures forall i :: 0 <= i < |lines| ==> os[i] == ParseLine(lines[i], i)
  {
    seq(|lines|, i requires 0 <= i < |lines| => ParseLine(lines[i], i))
  }

  /** The reading so far extended by one more line's outcome. */
  function Append(acc: Reading, line: Outcome): Reading
  {
    match acc
    case Failure(e) => Failure(e)
    case Success(a) =>
      match line
      case Failure(e) => Failure(e)
      case Success(one) => Success((a.0 + [one.0], a.1 + one.1))
  }

  /** The outcomes taken in order; the first failure decides the error. */
  function Collect(os: seq<Outcome>): Reading
  {
    if os == [] then Success(([], {}))
    else Append(Collect(os[..|os| - 1]), os[|os| - 1])
  }

  /** The lines read in order. */
  function ReadLines(lines: seq<string>): Reading
  {
    Collect(Outcomes(lines))
  }

  /** The start symbol: the first line from its second character to its first '>'. */
  function StartOf(first: string): Option<string>
  {
    var close := FindChar(first, '>', 0);
    if close == 0 || close == |first| then None else Some(first[1..close])
  }

  /** The grammar the lines describe; '$' is always a terminal. */
  function GrammarOf(lines: seq<string>): Result<Grammar, LineError>
  {
    if lines == [] then Failure(NoProductions)
    else
      match StartOf(lines[0])
      case None => Failure(NoStartSymbol)
      case Some(start) =>
        match ReadLines(lines)
        case Failure(e) => Failure(e)
        case Success(acc) => Success(Grammar(start, acc.1 + {EndMarker}, acc.0))
  }

  function Extend(known: set<char>, more: Option<set<char>>): Option<set<char>>
  {
    match more
    case None => None
    case Some(m) => Some(known + m)
  }

  /** Once a line fails, the lines after it do not matter. */
  lemma {:induction false} FailurePersists(os: seq<Outcome>, n: nat)
    requires n <= |os| && Collect(os[..n]).Failure?
    ensures Collect(os) == Collect(os[..n])
    decreases |os|
  {
    if n == |os| {
      assert os[..n] == os;
    } else {
      var front := os[..|os| - 1];
      assert front[..n] == os[..n];
      FailurePersists(front, n);
    }
  }

  /** One more line: the reading so far extended by that line's outcome. */
  lemma CollectNext(os: seq<Outcome>, n: nat)
    requires n < |os|
    ensures Collect(os[..n + 1]) == Append(Collect(os[..n]), os[n])
  {
    var p := os[..n + 1];
    assert p[..|p| - 1] == os[..n];
  }

  /**
   * The terminal scan of one body: each quoted character is added to
   * `terminals` as it is met, and the scan steps over the closing quote.
   * None when a quote is the last character (the source reads past the end).
   */
  method ScanTerminals(body: string, terminals: set<char>) returns (r: Option<set<char>>)
    ensures r == Extend(terminals, QuotedChars(body))
  {
    var found := terminals;
    var i := 0;
    assert body[0..] == body;
    while i < |body|
      invariant 0 <= i <= |body|
      invariant Extend(found, QuotedChars(body[i..])) == Extend(terminals, QuotedChars(body))
    {
      ghost var t := body[i..];
      assert t != [] && t[0] == body[i];
      if body[i] == '\'' {
        if i + 1 == |body| {
          assert QuotedChars(t) == None;
          return None;
        }
        assert t[1] == body[i + 1];
        ghost var old_found := found;
        found := found + {body[i + 1]};
        var next := if i + 3 <= |body| then i + 3 else |body|;
        assert t[if |t| < 3 then |t| else 3..] == body[next..];
        match QuotedChars(body[next..]) {
          case None =>
          case Some(rest) =>
            assert old_found + ({body[i + 1]} + rest) == found + rest;
        }
        i := next;
      } else {
        assert t[1..] == body[i + 1..];
        i := i + 1;
      }
    }
    assert body[i..] == [];
    assert found + {} == found;
    r := Some(found);
  }

  /**
   * The body of the source's loop for one line: split at "::=", check the
   * head's brackets, then either record an empty body or scan the body for
   * terminals (added to `terminals`) and read its symbols.
   */
  method ReadLine(line: string, n: nat, terminals: set<char>)
    returns (r: Result<(Rule, set<char>), LineError>)
    ensures r == match ParseLine(line, n)
      case Failure(e) => Failure(e)
      case Success(one) => Success((one.0, terminals + one.1))
  {
    var production := Fields(line);
    if |production| == 0 {
      return Failure(MissingField(n));
    }
    var head := Trim(production[0]);
    if !(|head| > 0 && head[0] == '<' && head[|head| - 1] == '>') {
      return Failure(UnbracketedHead(n));
    }
    var productionHead := head[1..|head| - 1];
    if |production| < 2 {
      return Failure(MissingField(n));
    }
    var productionBody := Trim(production[1]);
    if productionBody == "''" {
      assert terminals + {} == terminals;
      return Success((Rule(productionHead, []), terminals));
    }
    var scanned := ScanTerminals(productionBody, terminals);
    if scanned.None? {
      return Failure(DanglingQuote(n));
    }
    var symbols := Tokenize(productionBody);
    if symbols.None? {
      return Failure(MalformedBody(n));
    }
    r := Success((Rule(productionHead, symbols.value), scanned.value));
  }

  /**
   * Grammar.parse: reads the start symbol, then every line in order; the
   * quoted characters of a body are added to the terminals one by one, the
   * scan stepping over the closing quote; finally '$' is added.
   */
  method ParseGrammar(productions: seq<string>) returns (r: Result<Grammar, LineError>)
    ensures r == GrammarOf(productions)
  {
    if |productions| == 0 {
      return Failure(NoProductions);
    }
    var firstProduction := productions[0];
    var close := FindChar(firstProduction, '>', 0);
    if close == 0 || close == |firstProduction| {
      return Failure(NoStartSymbol);
    }
    var startSymbol := firstProduction[1..close];
    var terminals: set<char> := {};
    var rules: seq<Rule> := [];
    ghost var outcomes := Outcomes(productions);
    var n := 0;
    while n < |productions|
      invariant 0 <= n <= |productions|
      invariant Collect(outcomes[..n]) == Success((rules, terminals))
    {
      CollectNext(outcomes, n);
      var read := ReadLine(productions[n], n, terminals);
      if read.Failure? {
        FailurePersists(outcomes, n + 1);
        return Failure(read.error);
      }
      rules := rules + [read.value.0];
      terminals := read.value.1;
      n := n + 1;
    }
    assert outcomes[..n] == outcomes;
    terminals := terminals + {EndMarker};
    r := Success(Grammar(startSymbol, terminals, rules));
  }

  // ---------------------------------------------------------------------------
  // What a successful read guarantees

  /** A successful reading holds one rule per outcome, in order, and their terminals. */
  lemma {:induction false} CollectShape(os: seq<Outcome>)
    requires Collect(os).Success?
    ensures |Collect(os).value.0| == |os|
    ensures forall i :: 0 <= i < |os| ==> os[i].Success? && Collect(os).value.0[i] == os[i].value.0
    ensures forall c :: c in Collect(os).value.1 <==>
      exists i :: 0 <= i < |os| && os[i].Success? && c in os[i].value.1
  {
    if os != [] {
      var front := os[..|os| - 1];
      var last := os[|os| - 1];
      CollectShape(front);
      var acc := Collect(front).value;
      assert Collect(os).value == (acc.0 + [last.value.0], acc.1 + last.value.1);
      forall c | c in Collect(os).value.1
        ensures exists i :: 0 <= i < |os| && os[i].Success? && c in os[i].value.1
      {
        if c !in last.value.1 {
          var i :| 0 <= i < |front| && front[i].Success? && c in front[i].value.1;
          assert os[i] == front[i];
        }
      }
    } else {
      assert Collect(os).value.1 == {};
    }
  }

  /** Every line yields one production, in order, and registers its terminals. */
  lemma ReadLinesShape(lines: seq<string>)
    requires ReadLines(lines).Success?
    ensures |ReadLines(lines).value.0| == |lines|
    ensures forall i :: 0 <= i < |lines| ==>
      ParseLine(lines[i], i).Success? && ReadLines(lines).value.0[i] == ParseLine(lines[i], i).value.0
    ensures forall c :: c in ReadLines(lines).value.1 <==>
      exists i :: 0 <= i < |lines| && ParseLine(lines[i], i).Success? && c in ParseLine(lines[i], i).value.1
  {
    var os := Outcomes(lines);
    CollectShape(os);
    forall c | c in ReadLines(lines).value.1
      ensures exists i :: 0 <= i < |lines| && ParseLine(lines[i], i).Success? && c in ParseLine(lines[i], i).value.1
    {
      var i :| 0 <= i < |os| && os[i].Success? && c in os[i].value.1;
      assert os[i] == ParseLine(lines[i], i);
    }
  }

  /** A body that reads registers exactly its terminals. */
  lemma BodyTerminals(name: string, text: string, n: nat)
    requires ParseBody(name, text, n).Success?
    ensures ParseBody(name, text, n).value.1 == TerminalsOf(ParseBody(name, text, n).value.0.body)
  {
    if text == "''" {
      assert TerminalsOf([]) == {};
    } else {
      QuotedCharsAreTerminals(text);
    }
  }

  /** A line that reads registers exactly the terminals of its body. */
  lemma LineTerminals(line: string, n: nat)
    requires ParseLine(line, n).Success?
    ensures ParseLine(line, n).value.1 == TerminalsOf(ParseLine(line, n).value.0.body)
  {
    var fields := Fields(line);
    var head := Trim(fields[0]);
    BodyTerminals(head[1..|head| - 1], Trim(fields[1]), n);
  }

  /** A body text of exactly '' (or nothing at all) gives an epsilon production. */
  lemma EpsilonBody(name: string, text: string, n: nat)
    requires ParseBody(name, text, n).Success?
    ensures ParseBody(name, text, n).value.0.body == [] <==> text == "''" || text == ""
  {
    if text != "''" && text != "" {
      var sym, k := TokenizeHead(text);
    }
  }

  /**
   * After a successful read there is one production per line, '$' is a
   * terminal, and the terminals are exactly '$' and the quoted characters
   * of the bodies.
   */
  lemma TerminalsOfGrammar(lines: seq<string>)
    requires GrammarOf(lines).Success?
    ensures |GrammarOf(lines).value.rules| == |lines|
    ensures EndMarker in GrammarOf(lines).value.terminals
    ensures forall c :: c in GrammarOf(lines).value.terminals <==>
      c == EndMarker || exists r :: r in GrammarOf(lines).value.rules && c in TerminalsOf(r.body)
  {
    var os := Outcomes(lines);
    CollectShape(os);
    var acc := Collect(os).value;
    assert GrammarOf(lines).value.terminals == acc.1 + {EndMarker};
    assert GrammarOf(lines).value.rules == acc.0;
    forall c | c in acc.1
      ensures exists r :: r in acc.0 && c in TerminalsOf(r.body)
    {
      var i :| 0 <= i < |os| && os[i].Success? && c in os[i].value.1;
      LineTerminals(lines[i], i);
      assert acc.0[i] in acc.0;
    }
    forall r | r in acc.0
      ensures TerminalsOf(r.body) <= acc.1
    {
      var i :| 0 <= i < |acc.0| && acc.0[i] == r;
      LineTerminals(lines[i], i);
    }
  }

  /** A line that does not read makes the whole grammar fail. */
  lemma BadLineFails(lines: seq<string>, i: nat)
    requires i < |lines| && ParseLine(lines[i], i).Failure?
    ensures GrammarOf(lines).Failure?
  {
    if ReadLines(lines).Success? {
      ReadLinesShape(lines);
    }
  }

  /** A bracketed prefix <name> of a line, name free of '>', is where the start symbol is read. */
  lemma StartOfPrefix(line: string, head: string)
    requires |head| <= |line| && head == line[..|head|] && Bracketed(head)
    requires |head| >= 2 && '>' !in head[1..|head| - 1]
    ensures StartOf(line) == Some(head[1..|head| - 1])
  {
    var name := head[1..|head| - 1];
    assert forall j :: 1 <= j < |head| - 1 ==> line[j] == name[j - 1];
    assert FindChar(line, '>', 0) == |head| - 1;
    assert line[1..|head| - 1] == name;
  }

  /** The first field of a line that starts with '<' is a prefix of it, trimmed or not. */
  lemma HeadIsPrefix(line: string)
    requires line != [] && line[0] == '<'
    ensures |Fields(line)| > 0
    ensures |Trim(Fields(line)[0])| <= |line| && Trim(Fields(line)[0]) == line[..|Trim(Fields(line)[0])|]
  {
    var p := Pieces(line);
    FirstPieceIsPrefix(line);
    assert p[0] != [] && p[0][0] == '<';
    assert Fields(line)[0] == p[0];
    TrimKeepsPrefix(p[0]);
  }

  /**
   * A line that starts with its bracketed head, whose name has no '>':
   * the start symbol read off it is that head.
   */
  lemma HeadLineStart(line: string, n: nat)
    requires ParseLine(line, n).Success?
    requires line != [] && line[0] == '<'
    requires '>' !in ParseLine(line, n).value.0.head
    ensures StartOf(line) == Some(ParseLine(line, n).value.0.head)
  {
    HeadIsPrefix(line);
    var fields := Fields(line);
    var head := Trim(fields[0]);
    assert ParseFields(fields, n).value.0.head == head[1..|head| - 1];
    StartOfPrefix(line, head);
  }

  /**
   * When the first line starts with its bracketed head and the head's name
   * has no '>', the start symbol is the head of the first production.
   */
  lemma StartIsFirstHead(lines: seq<string>)
    requires GrammarOf(lines).Success?
    requires lines[0] != [] && lines[0][0] == '<'
    requires '>' !in GrammarOf(lines).value.rules[0].head
    ensures GrammarOf(lines).value.start == GrammarOf(lines).value.rules[0].head
  {
    var os := Outcomes(lines);
    CollectShape(os);
    HeadLineStart(lines[0], 0);
  }

  /** numberOfProductions of a grammar that was read: one production per line. */
  lemma ProductionsPerLine(lines: seq<string>)
    requires GrammarOf(lines).Success?
    ensures NumberOfProductions(GrammarOf(lines).value) == |lines|
  {
    ReadLinesShape(lines);
  }

  /** Production i of a grammar that was read is the one line i gives. */
  lemma RuleOfLine(lines: seq<string>, i: nat)
    requires GrammarOf(lines).Success? && i < |lines|
    ensures |GrammarOf(lines).value.rules| == |lines|
    ensures ParseLine(lines[i], i).Success? && GrammarOf(lines).value.rules[i] == ParseLine(lines[i], i).value.0
  {
    ReadLinesShape(lines);
  }

  /** containsNonTerminal of a grammar that was read: some line has that head. */
  lemma DeclaredHeads(lines: seq<string>, name: string)
    requires GrammarOf(lines).Success?
    ensures ContainsNonTerminal(GrammarOf(lines).value, name) <==>
      exists i :: 0 <= i < |lines| && ParseLine(lines[i], i).Success? && ParseLine(lines[i], i).value.0.head == name
  {
    var rules := GrammarOf(lines).value.rules;
    if i :| 0 <= i < |lines| && ParseLine(lines[i], i).Success? && ParseLine(lines[i], i).value.0.head == name {
      RuleOfLine(lines, i);
      assert rules[i] in rules;
    }
    if ContainsNonTerminal(GrammarOf(lines).value, name) {
      var r :| r in rules && r.head == name;
      var i :| 0 <= i < |rules| && rules[i] == r;
      ProductionsPerLine(lines);
      RuleOfLine(lines, i);
    }
  }

  /**
   * containsTerminalSymbol of a grammar that was read: a one-character
   * string that is '$' or a terminal quoted in some body.
   */
  lemma TerminalSymbols(lines: seq<string>, symbol: string)
    requires GrammarOf(lines).Success?
    ensures ContainsTerminalSymbol(GrammarOf(lines).value, symbol) <==>
      |symbol| == 1 && (symbol[0] == EndMarker || exists r :: r in GrammarOf(lines).value.rules && T(symbol[0]) in r.body)
  {
    TerminalsOfGrammar(lines);
    var g := GrammarOf(lines).value;
    if |symbol| == 1 {
      var c := symbol[0];
      if exists r :: r in g.rules && c in TerminalsOf(r.body) {
        var r :| r in g.rules && c in TerminalsOf(r.body);
        assert T(c) in r.body;
      }
      if exists r :: r in g.rules && T(c) in r.body {
        var r :| r in g.rules && T(c) in r.body;
        assert c in TerminalsOf(r.body);
      }
    }
  }
}
