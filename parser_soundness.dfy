/**
 * What an accepting run of the parser means: the input read so far has a
 * leftmost derivation from the start symbol, made of productions of the
 * grammar.  This is the guarantee a predictive parser gives whatever the
 * table holds, as long as every cell holds a production of its head.
 */
module ParserSoundness {
  import opened Wrappers
  import opened Symbols
  import opened BnfText
  import opened Grammars
  import opened FirstFollow
  import opened ParseTables
  import opened Parsers

  /**
   * The grammar's symbols can be told apart on the stack: the start symbol
   * and the names of non-terminals in bodies are not one-character terminal
   * strings, and the terminals in bodies are declared and are not '$'.
   */
  ghost predicate Distinguishable(g: Grammar)
  {
    EndMarker in g.terminals &&
    !ContainsTerminalSymbol(g, g.start) &&
    forall r, s :: r in g.rules && s in r.body ==> Pushable(g, s)
  }

  /** A body symbol the parser reads back as itself once it is on the stack. */
  predicate Pushable(g: Grammar, s: Sym)
  {
    match s
    case T(c) => c in g.terminals && c != EndMarker
    case N(n) => !ContainsTerminalSymbol(g, n)
  }

  /** Every cell holds a production of its head. */
  ghost predicate CellsHold(g: Grammar, cells: Cells)
  {
    forall k :: k in cells ==> Rule(k.0, cells[k]) in g.rules
  }

  /** How the parser reads a stack string: a terminal if the grammar has it, else a non-terminal. */
  function ToSym(g: Grammar, name: string): Sym
  {
    if ContainsTerminalSymbol(g, name) then T(name[0]) else N(name)
  }

  function ToSyms(g: Grammar, names: seq<string>): (r: seq<Sym>)
    ensures |r| == |names|
    ensures forall k :: 0 <= k < |names| ==> r[k] == ToSym(g, names[k])
  {
    seq(|names|, k requires 0 <= k < |names| => ToSym(g, names[k]))
  }

  /** The symbols still expected, read from the top of the stack down, without the bottom "$". */
  function Form(g: Grammar, stack: seq<string>): (r: seq<Sym>)
    requires |stack| >= 1
    ensures |r| == |stack| - 1
    ensures forall k :: 0 <= k < |r| ==> r[k] == ToSym(g, stack[|stack| - 1 - k])
  {
    seq(|stack| - 1, k requires 0 <= k < |stack| - 1 => ToSym(g, stack[|stack| - 1 - k]))
  }

  /** The characters of a text as terminal symbols. */
  function Word(s: string): (r: seq<Sym>)
    ensures |r| == |s|
    ensures forall k :: 0 <= k < |s| ==> r[k] == T(s[k])
  {
    seq(|s|, k requires 0 <= k < |s| => T(s[k]))
  }

  /**
   * Reference definition: `steps` rewrites a into b, each step replacing the
   * leftmost non-terminal by a body of one of its productions.
   */
  ghost predicate Leftmost(g: Grammar, a: seq<Sym>, steps: seq<Rule>, b: seq<Sym>)
    decreases |steps|
  {
    if steps == [] then a == b
    else
      exists i :: 0 <= i < |a| && a[i] == N(steps[0].head) &&
        (forall j :: 0 <= j < i ==> a[j].T?) && steps[0] in g.rules &&
        Leftmost(g, a[..i] + steps[0].body + a[i + 1..], steps[1..], b)
  }

  /** The invariant of an accepting run: what was read and what is expected derive from the start symbol. */
  ghost predicate Derived(g: Grammar, input: string, c: Config)
    requires c.index <= |input| && c.stack != []
  {
    (exists steps :: Leftmost(g, [N(g.start)], steps, Word(input[..c.index]) + Form(g, c.stack))) &&
    SingleMarker(c.stack)
  }

  /** No "$" above the bottom of the stack. */
  predicate SingleMarker(stack: seq<string>)
  {
    forall k :: 1 <= k < |stack| ==> stack[k] != [EndMarker]
  }

  // ---------------------------------------------------------------------------
  // Stack and derivation helpers

  /** Pushing names in reverse order puts them, first name on top, above what was there. */
  lemma FormPush(g: Grammar, base: seq<string>, names: seq<string>)
    requires |base| >= 1
    ensures Form(g, base + Reverse(names)) == ToSyms(g, names) + Form(g, base)
  {
    var s := base + Reverse(names);
    var lhs := Form(g, s);
    var rhs := ToSyms(g, names) + Form(g, base);
    forall k | 0 <= k < |lhs|
      ensures lhs[k] == rhs[k]
    {
      if k < |names| {
        assert s[|s| - 1 - k] == Reverse(names)[|names| - 1 - k] == names[k];
      } else {
        assert s[|s| - 1 - k] == base[|base| - 1 - (k - |names|)];
      }
    }
  }

  /** A body of a distinguishable grammar reads back as itself from the stack. */
  lemma BodyReadsBack(g: Grammar, r: Rule)
    requires Distinguishable(g) && r in g.rules
    ensures ToSyms(g, FromBnf(r.body)) == r.body
  {
    forall k | 0 <= k < |r.body|
      ensures ToSyms(g, FromBnf(r.body))[k] == r.body[k]
    {
      var x := r.body[k];
      assert x in r.body;
      assert Pushable(g, x);
      assert ToSyms(g, FromBnf(r.body))[k] == ToSym(g, SymbolName(x));
    }
  }

  /** A leftmost derivation ending in W <h> F extends by a production of h. */
  lemma {:induction false} LeftmostExtend(g: Grammar, a: seq<Sym>, steps: seq<Rule>,
                                          w: seq<Sym>, r: Rule, f: seq<Sym>)
    requires Leftmost(g, a, steps, w + [N(r.head)] + f)
    requires forall j :: 0 <= j < |w| ==> w[j].T?
    requires r in g.rules
    ensures Leftmost(g, a, steps + [r], w + r.body + f)
    decreases |steps|
  {
    var b := w + [N(r.head)] + f;
    if steps == [] {
      var i := |w|;
      assert a == b && a[i] == N(r.head);
      assert a[..i] == w && a[i + 1..] == f;
      assert [r][1..] == [];
      assert Leftmost(g, a[..i] + r.body + a[i + 1..], [], w + r.body + f);
    } else {
      var i :| 0 <= i < |a| && a[i] == N(steps[0].head) &&
        (forall j :: 0 <= j < i ==> a[j].T?) && steps[0] in g.rules &&
        Leftmost(g, a[..i] + steps[0].body + a[i + 1..], steps[1..], b);
      var a' := a[..i] + steps[0].body + a[i + 1..];
      LeftmostExtend(g, a', steps[1..], w, r, f);
      assert (steps + [r])[0] == steps[0];
      assert (steps + [r])[1..] == steps[1..] + [r];
    }
  }

  // ---------------------------------------------------------------------------
  // One round keeps the invariant

  lemma InitialDerived(g: Grammar, input: string)
    requires Distinguishable(g) && Sane(input, Initial(g))
    ensures Derived(g, input, Initial(g))
  {
    var c := Initial(g);
    assert Form(g, c.stack) == [N(g.start)];
    assert Word(input[..0]) == [];
    assert Leftmost(g, [N(g.start)], [], Word(input[..0]) + Form(g, c.stack));
  }

  /** Matching a terminal moves it from the expected symbols to the text read. */
  lemma MatchKeeps(g: Grammar, input: string, c: Config)
    requires Distinguishable(g) && Sane(input, c) && Derived(g, input, c)
    requires |c.stack| >= 2 && ContainsTerminalSymbol(g, Top(c)) && Top(c) == [input[c.index]]
    requires input[c.index] != EndMarker
    ensures Derived(g, input, Config(c.stack[..|c.stack| - 1], c.index + 1))
  {
    var next := Config(c.stack[..|c.stack| - 1], c.index + 1);
    var steps :| Leftmost(g, [N(g.start)], steps, Word(input[..c.index]) + Form(g, c.stack));
    assert Form(g, c.stack) == [T(input[c.index])] + Form(g, next.stack);
    assert Word(input[..c.index + 1]) == Word(input[..c.index]) + [T(input[c.index])];
    assert Word(input[..c.index]) + Form(g, c.stack) == Word(input[..next.index]) + Form(g, next.stack);
  }

  /** Expanding a non-terminal by a production adds one leftmost step. */
  lemma ExpandKeeps(g: Grammar, input: string, c: Config, r: Rule)
    requires Distinguishable(g) && Sane(input, c) && Derived(g, input, c)
    requires |c.stack| >= 2 && !ContainsTerminalSymbol(g, Top(c))
    requires r in g.rules && r.head == Top(c)
    ensures Derived(g, input, Config(c.stack[..|c.stack| - 1] + Reverse(FromBnf(r.body)), c.index))
  {
    var rest := c.stack[..|c.stack| - 1];
    var steps :| Leftmost(g, [N(g.start)], steps, Word(input[..c.index]) + Form(g, c.stack));
    ExpandDerives(g, Word(input[..c.index]), c.stack, r, steps);
    assert SingleMarker(rest);
    PushKeepsMarker(g, rest, r);
  }

  /** The derivation part of an expansion, on the text read `w`. */
  lemma ExpandDerives(g: Grammar, w: seq<Sym>, stack: seq<string>, r: Rule, steps: seq<Rule>)
    requires Distinguishable(g) && |stack| >= 2 && !ContainsTerminalSymbol(g, stack[|stack| - 1])
    requires forall j :: 0 <= j < |w| ==> w[j].T?
    requires r in g.rules && r.head == stack[|stack| - 1]
    requires Leftmost(g, [N(g.start)], steps, w + Form(g, stack))
    ensures Leftmost(g, [N(g.start)], steps + [r],
      w + Form(g, stack[..|stack| - 1] + Reverse(FromBnf(r.body))))
  {
    var rest := stack[..|stack| - 1];
    assert Form(g, stack) == [N(r.head)] + Form(g, rest);
    assert w + Form(g, stack) == w + [N(r.head)] + Form(g, rest);
    LeftmostExtend(g, [N(g.start)], steps, w, r, Form(g, rest));
    FormPush(g, rest, FromBnf(r.body));
    BodyReadsBack(g, r);
    assert w + r.body + Form(g, rest) == w + Form(g, rest + Reverse(FromBnf(r.body)));
  }

  /** Pushing a body never puts a second "$" on the stack. */
  lemma PushKeepsMarker(g: Grammar, rest: seq<string>, r: Rule)
    requires Distinguishable(g) && r in g.rules
    requires SingleMarker(rest)
    ensures SingleMarker(rest + Reverse(FromBnf(r.body)))
  {
    var pushed := rest + Reverse(FromBnf(r.body));
    forall k | 1 <= k < |pushed|
      ensures pushed[k] != [EndMarker]
    {
      if k >= |rest| {
        var m := |r.body| - 1 - (k - |rest|);
        var x := r.body[m];
        assert pushed[k] == SymbolName(x);
        assert x in r.body;
        assert Pushable(g, x);
        assert x.N? ==> x.name != [EndMarker];
      }
    }
  }

  /** Every round that goes on keeps the invariant. */
  lemma StepKeeps(g: Grammar, cells: Cells, input: string, c: Config)
    requires Distinguishable(g) && CellsHold(g, cells) && Sane(input, c) && Derived(g, input, c)
    requires Step(g, cells, input, c).Continue?
    ensures Derived(g, input, Step(g, cells, input, c).next)
  {
    var top := Top(c);
    var ch := input[c.index];
    if ContainsTerminalSymbol(g, top) {
      assert top != [EndMarker];
      MatchKeeps(g, input, c);
    } else if ContainsNonTerminal(g, top) {
      var body := Lookup(cells, top, Char(ch)).value;
      assert Rule(top, body) in g.rules;
      ExpandKeeps(g, input, c, Rule(top, body));
    }
  }

  /** An accepting run stops with nothing expected: the text read derives from the start symbol. */
  lemma {:induction false} RunSound(g: Grammar, cells: Cells, input: string, c: Config, fuel: nat)
    requires Distinguishable(g) && CellsHold(g, cells) && Sane(input, c) && Derived(g, input, c)
    requires Run(g, cells, input, c, fuel).0 == Accepted
    ensures var last := Run(g, cells, input, c, fuel).1;
      input[last.index] == EndMarker &&
      exists steps :: Leftmost(g, [N(g.start)], steps, Word(input[..last.index]))
    decreases fuel
  {
    var m := Step(g, cells, input, c);
    if m.Accept? {
      assert |c.stack| == 1;
      var steps :| Leftmost(g, [N(g.start)], steps, Word(input[..c.index]) + Form(g, c.stack));
      assert Word(input[..c.index]) + Form(g, c.stack) == Word(input[..c.index]);
    } else {
      StepKeeps(g, cells, input, c);
      RunSound(g, cells, input, m.next, fuel - 1);
    }
  }

  /** The text, read as terminals, has a leftmost derivation from the start symbol. */
  ghost predicate Derives(g: Grammar, text: string)
  {
    exists steps :: Leftmost(g, [N(g.start)], steps, Word(text))
  }

  /** Some prefix of the text that ends at its end or just before a '$' derives from the start symbol. */
  ghost predicate DerivesUpToMarker(g: Grammar, text: string)
  {
    exists k :: 0 <= k <= |text| && (k == |text| || text[k] == EndMarker) && Derives(g, text[..k])
  }

  /**
   * Soundness of parse over a table generate built.  `text` is what parse
   * makes of its argument before appending '$' (Normalize without its last
   * character): when the run accepts, the text has a leftmost derivation
   * from the start symbol up to the first '$' it holds, and all of it has
   * one when it holds no '$'.
   */
  lemma ParseSound(g: Grammar, tableFuel: nat, text: string, fuel: nat)
    requires Distinguishable(g)
    requires Run(g, Fill(g, g.rules, map[], tableFuel).cells, text + [EndMarker], Initial(g), fuel).0 == Accepted
    ensures DerivesUpToMarker(g, text)
    ensures EndMarker !in text ==> Derives(g, text)
  {
    TableHolds(g, tableFuel);
    AcceptedSound(g, Fill(g, g.rules, map[], tableFuel).cells, text, fuel);
  }

  /** Soundness of parse over any table whose cells hold productions of their heads. */
  lemma AcceptedSound(g: Grammar, cells: Cells, text: string, fuel: nat)
    requires Distinguishable(g) && CellsHold(g, cells)
    requires Run(g, cells, text + [EndMarker], Initial(g), fuel).0 == Accepted
    ensures DerivesUpToMarker(g, text)
    ensures EndMarker !in text ==> Derives(g, text)
  {
    var input := text + [EndMarker];
    var k, steps := AcceptedPrefix(g, cells, input, fuel);
    assert k <= |text| && (k == |text| || text[k] == EndMarker);
    assert input[..k] == text[..k];
    assert Derives(g, text[..k]);
    if EndMarker !in text {
      assert text[..k] == text;
    }
  }

  /** The table generate builds holds, in every cell, a production of its head. */
  lemma TableHolds(g: Grammar, tableFuel: nat)
    ensures CellsHold(g, Fill(g, g.rules, map[], tableFuel).cells)
  {
    CellsFromProductions(g, g.rules, tableFuel);
  }

  /** The accepting position of a run from the start and the derivation of what precedes it. */
  lemma AcceptedPrefix(g: Grammar, cells: Cells, input: string, fuel: nat) returns (k: nat, steps: seq<Rule>)
    requires Distinguishable(g) && CellsHold(g, cells) && Sane(input, Initial(g))
    requires Run(g, cells, input, Initial(g), fuel).0 == Accepted
    ensures k == Run(g, cells, input, Initial(g), fuel).1.index && k < |input| && input[k] == EndMarker
    ensures Leftmost(g, [N(g.start)], steps, Word(input[..k]))
  {
    InitialDerived(g, input);
    RunSound(g, cells, input, Initial(g), fuel);
    k := Run(g, cells, input, Initial(g), fuel).1.index;
    steps :| Leftmost(g, [N(g.start)], steps, Word(input[..k]));
  }

  /**
   * A stack top that is neither a terminal nor a non-terminal (a name used
   * in a body but never defined) makes the loop go round unchanged: no
   * budget brings a verdict.
   */
  lemma {:induction false} UnknownTopSpins(g: Grammar, cells: Cells, input: string, c: Config, fuel: nat)
    requires EndMarker in g.terminals && Sane(input, c)
    requires !ContainsTerminalSymbol(g, Top(c)) && !ContainsNonTerminal(g, Top(c))
    ensures Run(g, cells, input, c, fuel) == (Undecided, c)
    decreases fuel
  {
    if fuel > 0 {
      assert Step(g, cells, input, c) == Continue(c);
      UnknownTopSpins(g, cells, input, c, fuel - 1);
    }
  }
}
