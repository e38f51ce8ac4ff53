/**
 * FIRST and FOLLOW as Grammar.java computes them: firstSetOf, the two
 * overloads of firstOf, and followSetOf/followOf.  The source accumulates
 * into a HashSet and recurses without a guard; here each is a function of
 * the grammar with a recursion budget (`fuel`), and OutOfFuel stands for the
 * recursion the source never finishes.  Each computation is proved equal to
 * a declarative description (LeadsWith, InFollow), so the budget never
 * changes an answer it produces.
 */
module FirstFollow {
  import opened Wrappers
  import opened Symbols
  import opened Grammars

  /** An element of a FIRST set: a terminal, or the EPSILON marker. */
  datatype Lookahead = Char(c: char) | Epsilon

  function Chars(s: set<char>): (r: set<Lookahead>)
    ensures forall x :: x in r <==> x.Char? && x.c in s
  {
    set c | c in s :: Char(c)
  }

  // ---------------------------------------------------------------------------
  // firstSetOf

  /**
   * firstSetOf(nt): for each body of nt, its leading terminal, or the
   * firstSetOf of its leading non-terminal.  Empty bodies add nothing: this
   * helper never adds EPSILON.  None when the budget runs out.
   */
  function FirstSetOf(g: Grammar, nt: string, fuel: nat): Option<set<char>>
    decreases fuel, 2, 0
  {
    FirstSetOver(g, g.rules, nt, fuel)
  }

  /** What one production adds to firstSetOf(nt). */
  function LeadContribution(g: Grammar, r: Rule, nt: string, fuel: nat): Option<set<char>>
    decreases fuel, 0, 0
  {
    if r.head != nt || r.body == [] then Some({})
    else
      match r.body[0]
      case T(c) => Some({c})
      case N(m) => if fuel == 0 then None else FirstSetOf(g, m, fuel - 1)
  }

  function FirstSetOver(g: Grammar, rs: seq<Rule>, nt: string, fuel: nat): Option<set<char>>
    decreases fuel, 1, |rs|
  {
    if rs == [] then Some({})
    else
      var here := LeadContribution(g, rs[0], nt, fuel);
      var rest := FirstSetOver(g, rs[1..], nt, fuel);
      if here.None? || rest.None? then None else Some(here.value + rest.value)
  }

  /**
   * Reference definition: c can lead a derivation from nt through at most d
   * leading non-terminals.
   */
  ghost predicate LeadsWith(g: Grammar, nt: string, c: char, d: nat)
    decreases d
  {
    exists r :: r in g.rules && r.head == nt && r.body != [] &&
      (r.body[0] == T(c) || (r.body[0].N? && d > 0 && LeadsWith(g, r.body[0].name, c, d - 1)))
  }

  lemma {:induction false} FirstSetOverIncludes(g: Grammar, rs: seq<Rule>, nt: string, fuel: nat, r: Rule)
    requires FirstSetOver(g, rs, nt, fuel).Some? && r in rs
    ensures LeadContribution(g, r, nt, fuel).Some?
    ensures LeadContribution(g, r, nt, fuel).value <= FirstSetOver(g, rs, nt, fuel).value
  {
    if r != rs[0] {
      FirstSetOverIncludes(g, rs[1..], nt, fuel, r);
    }
  }

  lemma {:induction false} FirstSetOverFrom(g: Grammar, rs: seq<Rule>, nt: string, fuel: nat, c: char) returns (r: Rule)
    requires FirstSetOver(g, rs, nt, fuel).Some? && c in FirstSetOver(g, rs, nt, fuel).value
    ensures r in rs && LeadContribution(g, r, nt, fuel).Some? && c in LeadContribution(g, r, nt, fuel).value
  {
    if c in LeadContribution(g, rs[0], nt, fuel).value {
      r := rs[0];
    } else {
      r := FirstSetOverFrom(g, rs[1..], nt, fuel, c);
    }
  }

  /** Everything firstSetOf(nt) finds leads some derivation from nt. */
  lemma {:induction false} FirstSetOfSound(g: Grammar, nt: string, fuel: nat, c: char)
    requires FirstSetOf(g, nt, fuel).Some? && c in FirstSetOf(g, nt, fuel).value
    ensures LeadsWith(g, nt, c, fuel)
    decreases fuel
  {
    var r := FirstSetOverFrom(g, g.rules, nt, fuel, c);
    if r.body[0].N? {
      FirstSetOfSound(g, r.body[0].name, fuel - 1, c);
    }
  }

  /** Whenever firstSetOf(nt) finishes, it finds every terminal that leads a derivation from nt. */
  lemma {:induction false} FirstSetOfComplete(g: Grammar, nt: string, fuel: nat, c: char, d: nat)
    requires FirstSetOf(g, nt, fuel).Some? && LeadsWith(g, nt, c, d)
    ensures c in FirstSetOf(g, nt, fuel).value
    decreases d
  {
    var r :| r in g.rules && r.head == nt && r.body != [] &&
      (r.body[0] == T(c) || (r.body[0].N? && d > 0 && LeadsWith(g, r.body[0].name, c, d - 1)));
    FirstSetOverIncludes(g, g.rules, nt, fuel, r);
    if r.body[0] != T(c) {
      FirstSetOfComplete(g, r.body[0].name, fuel - 1, c, d - 1);
    }
  }

  // ---------------------------------------------------------------------------
  // firstOf(nt)

  /** Some production of nt has an empty (epsilon) body. */
  predicate HasEpsilonBody(g: Grammar, nt: string)
  {
    Rule(nt, []) in g.rules
  }

  /**
   * firstOf(nt): fails on an undeclared nt; otherwise the leading terminals
   * of nt's bodies (closed over leading non-terminals by firstSetOf) and
   * EPSILON when nt has an empty body.
   */
  function FirstOf(g: Grammar, nt: string, fuel: nat): (r: Result<set<Lookahead>, Error>)
    ensures !ContainsNonTerminal(g, nt) ==> r == Failure(UnknownSymbol(nt))
    ensures r.Success? ==> (Epsilon in r.value <==> HasEpsilonBody(g, nt))
  {
    if !ContainsNonTerminal(g, nt) then Failure(UnknownSymbol(nt))
    else
      match FirstSetOf(g, nt, fuel + 1)
      case None => Failure(OutOfFuel)
      case Some(s) => Success(Chars(s) + (if HasEpsilonBody(g, nt) then {Epsilon} else {}))
  }

  /** firstOf(nt) holds exactly the terminals that lead some derivation from nt. */
  lemma FirstOfTerminals(g: Grammar, nt: string, fuel: nat, c: char)
    requires FirstOf(g, nt, fuel).Success?
    ensures Char(c) in FirstOf(g, nt, fuel).value ==> LeadsWith(g, nt, c, fuel + 1)
    ensures (exists d: nat :: LeadsWith(g, nt, c, d)) ==> Char(c) in FirstOf(g, nt, fuel).value
  {
    if Char(c) in FirstOf(g, nt, fuel).value {
      FirstSetOfSound(g, nt, fuel + 1, c);
    }
    if d: nat :| LeadsWith(g, nt, c, d) {
      FirstSetOfComplete(g, nt, fuel + 1, c, d);
    }
  }

  /** Two budgets under which firstOf(nt) finishes give the same set. */
  lemma FirstOfFuelAgrees(g: Grammar, nt: string, fuel1: nat, fuel2: nat)
    requires FirstOf(g, nt, fuel1).Success? && FirstOf(g, nt, fuel2).Success?
    ensures FirstOf(g, nt, fuel1) == FirstOf(g, nt, fuel2)
  {
    var s1, s2 := FirstOf(g, nt, fuel1).value, FirstOf(g, nt, fuel2).value;
    forall x | x in s1 ensures x in s2 {
      if x.Char? {
        FirstOfTerminals(g, nt, fuel1, x.c);
        FirstOfTerminals(g, nt, fuel2, x.c);
      }
    }
    forall x | x in s2 ensures x in s1 {
      if x.Char? {
        FirstOfTerminals(g, nt, fuel1, x.c);
        FirstOfTerminals(g, nt, fuel2, x.c);
      }
    }
    assert s1 == s2;
  }

  // ---------------------------------------------------------------------------
  // The production-body tests of followOf

  /** The body ends with <x> (the pattern ^.*<x>$). */
  predicate EndsWith(b: Body, x: string)
  {
    |b| > 0 && b[|b| - 1] == N(x)
  }

  /** Position k holds <x> and a terminal stands right after it. */
  predicate TerminalAt(b: Body, x: string, k: nat)
  {
    k + 1 < |b| && b[k] == N(x) && b[k + 1].T?
  }

  /** Some <x> is immediately followed by a terminal (the pattern ^.*<x>'.'.*$). */
  predicate TerminalFollows(b: Body, x: string)
  {
    exists k: nat :: k < |b| && TerminalAt(b, x, k)
  }

  /**
   * The body starts with a non-terminal and some <x> stands right after
   * another non-terminal (the pattern ^<.*><x>.*$), or the body is a
   * terminal followed by <x> (the pattern ^'.'<x>.*$).
   */
  predicate InheritsFollow(b: Body, x: string)
  {
    (|b| > 0 && b[0].N? && exists k :: 1 <= k < |b| && b[k] == N(x) && b[k - 1].N?)
    || (|b| >= 2 && b[0].T? && b[1] == N(x))
  }

  /** The terminals that stand immediately after an occurrence of <x>. */
  function TerminalsAfter(b: Body, x: string): (r: set<char>)
    ensures r <= TerminalsOf(b)
    ensures TerminalFollows(b, x) <==> r != {}
    ensures forall c :: c in r <==> exists k: nat :: TerminalAt(b, x, k) && b[k + 1].c == c
  {
    var r := set k: nat | k < |b| && TerminalAt(b, x, k) :: b[k + 1].c;
    assert forall k: nat :: TerminalAt(b, x, k) ==> b[k + 1].c in r;
    assert forall c :: c in r ==> T(c) in b;
    r
  }

  // ---------------------------------------------------------------------------
  // followSetOf / followOf

  /** What one production that mentions <x> adds to FOLLOW(x). */
  function Contribution(g: Grammar, r: Rule, x: string, fuel: nat): Result<set<char>, Error>
    decreases fuel, 0, 0
  {
    if EndsWith(r.body, x) && r.head == g.start then Success({EndMarker})
    else if TerminalFollows(r.body, x) then Success(TerminalsAfter(r.body, x))
    else if InheritsFollow(r.body, x) then
      if fuel == 0 then Failure(OutOfFuel) else FollowOf(g, r.head, fuel - 1)
    else Success({})
  }

  function FollowOver(g: Grammar, rs: seq<Rule>, x: string, fuel: nat): Result<set<char>, Error>
    decreases fuel, 1, |rs|
  {
    if rs == [] then Success({})
    else
      var here := Contribution(g, rs[0], x, fuel);
      var rest := FollowOver(g, rs[1..], x, fuel);
      if here.Failure? then here
      else if rest.Failure? then rest
      else Success(here.value + rest.value)
  }

  /**
   * followSetOf(x): fails on an undeclared x; '$' when x is the start
   * symbol, and the contribution of every production that mentions <x>
   * under another head.
   */
  function FollowOf(g: Grammar, x: string, fuel: nat): (r: Result<set<char>, Error>)
    ensures !ContainsNonTerminal(g, x) ==> r == Failure(UnknownSymbol(x))
    decreases fuel, 2, 0
  {
    if !ContainsNonTerminal(g, x) then Failure(UnknownSymbol(x))
    else
      match FollowOver(g, RulesWithNonTerminalInBody(g.rules, x), x, fuel)
      case Failure(e) => Failure(e)
      case Success(s) => Success((if x == g.start then {EndMarker} else {}) + s)
  }

  /**
   * Reference definition: c is in FOLLOW(x) by a chain of at most d
   * inheritances from the heads of the productions that mention <x>.
   */
  ghost predicate InFollow(g: Grammar, x: string, c: char, d: nat)
    decreases d
  {
    ContainsNonTerminal(g, x) &&
    ((x == g.start && c == EndMarker) ||
     exists r :: r in g.rules && MentionsElsewhere(r, x) &&
       if EndsWith(r.body, x) && r.head == g.start then c == EndMarker
       else if TerminalFollows(r.body, x) then c in TerminalsAfter(r.body, x)
       else InheritsFollow(r.body, x) && d > 0 && InFollow(g, r.head, c, d - 1))
  }

  lemma {:induction false} FollowOverIncludes(g: Grammar, rs: seq<Rule>, x: string, fuel: nat, r: Rule)
    requires FollowOver(g, rs, x, fuel).Success? && r in rs
    ensures Contribution(g, r, x, fuel).Success?
    ensures Contribution(g, r, x, fuel).value <= FollowOver(g, rs, x, fuel).value
  {
    if r != rs[0] {
      FollowOverIncludes(g, rs[1..], x, fuel, r);
    }
  }

  lemma {:induction false} FollowOverFrom(g: Grammar, rs: seq<Rule>, x: string, fuel: nat, c: char) returns (r: Rule)
    requires FollowOver(g, rs, x, fuel).Success? && c in FollowOver(g, rs, x, fuel).value
    ensures r in rs && Contribution(g, r, x, fuel).Success? && c in Contribution(g, r, x, fuel).value
  {
    if c in Contribution(g, rs[0], x, fuel).value {
      r := rs[0];
    } else {
      r := FollowOverFrom(g, rs[1..], x, fuel, c);
    }
  }

  /** Everything followSetOf(x) returns is justified by the reference definition. */
  lemma {:induction false} FollowOfSound(g: Grammar, x: string, fuel: nat, c: char)
    requires FollowOf(g, x, fuel).Success? && c in FollowOf(g, x, fuel).value
    ensures InFollow(g, x, c, fuel)
    decreases fuel
  {
    if !(x == g.start && c == EndMarker) {
      var r := FollowOverFrom(g, RulesWithNonTerminalInBody(g.rules, x), x, fuel, c);
      if !(EndsWith(r.body, x) && r.head == g.start) && !TerminalFollows(r.body, x) {
        FollowOfSound(g, r.head, fuel - 1, c);
      }
    }
  }

  /** Whenever followSetOf(x) finishes, it holds everything the reference definition puts in FOLLOW(x). */
  lemma {:induction false} FollowOfComplete(g: Grammar, x: string, fuel: nat, c: char, d: nat)
    requires FollowOf(g, x, fuel).Success? && InFollow(g, x, c, d)
    ensures c in FollowOf(g, x, fuel).value
    decreases d
  {
    if !(x == g.start && c == EndMarker) {
      var r :| r in g.rules && MentionsElsewhere(r, x) &&
        if EndsWith(r.body, x) && r.head == g.start then c == EndMarker
        else if TerminalFollows(r.body, x) then c in TerminalsAfter(r.body, x)
        else InheritsFollow(r.body, x) && d > 0 && InFollow(g, r.head, c, d - 1);
      FollowOverIncludes(g, RulesWithNonTerminalInBody(g.rules, x), x, fuel, r);
      if !(EndsWith(r.body, x) && r.head == g.start) && !TerminalFollows(r.body, x) {
        FollowOfComplete(g, r.head, fuel - 1, c, d - 1);
      }
    }
  }

  /** Two budgets under which followSetOf(x) finishes give the same set. */
  lemma FollowOfFuelAgrees(g: Grammar, x: string, fuel1: nat, fuel2: nat)
    requires FollowOf(g, x, fuel1).Success? && FollowOf(g, x, fuel2).Success?
    ensures FollowOf(g, x, fuel1) == FollowOf(g, x, fuel2)
  {
    var s1, s2 := FollowOf(g, x, fuel1).value, FollowOf(g, x, fuel2).value;
    forall c | c in s1 ensures c in s2 {
      FollowOfSound(g, x, fuel1, c);
      FollowOfComplete(g, x, fuel2, c, fuel1);
    }
    forall c | c in s2 ensures c in s1 {
      FollowOfSound(g, x, fuel2, c);
      FollowOfComplete(g, x, fuel1, c, fuel2);
    }
    assert s1 == s2;
  }

  /**
   * '$' is in FOLLOW(x) when x is the start symbol, and when <x> ends a body
   * of the start symbol.
   */
  lemma EndMarkerFollows(g: Grammar, x: string, fuel: nat)
    requires FollowOf(g, x, fuel).Success?
    requires x == g.start || exists r :: r in g.rules && r.head == g.start && EndsWith(r.body, x)
    ensures EndMarker in FollowOf(g, x, fuel).value
  {
    if x != g.start {
      var r :| r in g.rules && r.head == g.start && EndsWith(r.body, x);
      assert N(x) in r.body;
      assert InFollow(g, x, EndMarker, 0);
      FollowOfComplete(g, x, fuel, EndMarker, 0);
    }
  }

  /**
   * A terminal right after <x> in another head's body is in FOLLOW(x), unless
   * the body ends with <x> under the start symbol (then only '$' is added).
   */
  lemma TerminalAfterFollows(g: Grammar, x: string, fuel: nat, r: Rule, k: nat)
    requires FollowOf(g, x, fuel).Success?
    requires r in g.rules && r.head != x
    requires k + 1 < |r.body| && r.body[k] == N(x) && r.body[k + 1].T?
    requires !(EndsWith(r.body, x) && r.head == g.start)
    ensures r.body[k + 1].c in FollowOf(g, x, fuel).value
  {
    assert TerminalAt(r.body, x, k);
    assert r.body[k + 1].c in TerminalsAfter(r.body, x);
    assert InFollow(g, x, r.body[k + 1].c, 0);
    FollowOfComplete(g, x, fuel, r.body[k + 1].c, 0);
  }

  /**
   * A body of the form A <x> ... or 'c' <x> ... under another head makes
   * FOLLOW(x) include all of FOLLOW(head), when neither earlier branch
   * applies.
   */
  lemma HeadFollowInherited(g: Grammar, x: string, fuel: nat, r: Rule)
    requires FollowOf(g, x, fuel).Success?
    requires r in g.rules && MentionsElsewhere(r, x)
    requires !(EndsWith(r.body, x) && r.head == g.start) && !TerminalFollows(r.body, x)
    requires InheritsFollow(r.body, x)
    ensures fuel > 0 && FollowOf(g, r.head, fuel - 1).Success?
    ensures FollowOf(g, r.head, fuel - 1).value <= FollowOf(g, x, fuel).value
  {
    FollowOverIncludes(g, RulesWithNonTerminalInBody(g.rules, x), x, fuel, r);
  }

  // ---------------------------------------------------------------------------
  // firstOf(nt, body)

  /**
   * firstOf(nt, body): fails on an undeclared nt; otherwise {leading
   * terminal}, firstOf(leading non-terminal), or followSetOf(nt) for an
   * empty body.
   */
  function FirstOfBody(g: Grammar, nt: string, body: Body, fuel: nat): (r: Result<set<Lookahead>, Error>)
    ensures !ContainsNonTerminal(g, nt) ==> r == Failure(UnknownSymbol(nt))
    ensures ContainsNonTerminal(g, nt) && body != [] && body[0].T? ==> r == Success({Char(body[0].c)})
    ensures ContainsNonTerminal(g, nt) && body != [] && body[0].N? ==> r == FirstOf(g, body[0].name, fuel)
    ensures ContainsNonTerminal(g, nt) && body == [] ==> (r.Failure? <==> FollowOf(g, nt, fuel).Failure?)
  {
    if !ContainsNonTerminal(g, nt) then Failure(UnknownSymbol(nt))
    else if body == [] then
      match FollowOf(g, nt, fuel)
      case Failure(e) => Failure(e)
      case Success(s) => Success(Chars(s))
    else
      match body[0]
      case T(c) => Success({Char(c)})
      case N(m) => FirstOf(g, m, fuel)
  }

  /**
   * The terminals in firstOf(nt, body), against the reference definitions:
   * the leading terminal; the terminals that lead a derivation from the
   * leading non-terminal; or, for an empty body, FOLLOW(nt).
   */
  lemma FirstOfBodyTerminals(g: Grammar, nt: string, body: Body, fuel: nat, c: char)
    requires FirstOfBody(g, nt, body, fuel).Success?
    ensures body != [] && body[0].T? ==> (Char(c) in FirstOfBody(g, nt, body, fuel).value <==> c == body[0].c)
    ensures body != [] && body[0].N? ==>
      && (Char(c) in FirstOfBody(g, nt, body, fuel).value ==> LeadsWith(g, body[0].name, c, fuel + 1))
      && ((exists d: nat :: LeadsWith(g, body[0].name, c, d)) ==> Char(c) in FirstOfBody(g, nt, body, fuel).value)
    ensures body == [] ==>
      && (Char(c) in FirstOfBody(g, nt, body, fuel).value ==> InFollow(g, nt, c, fuel))
      && ((exists d: nat :: InFollow(g, nt, c, d)) ==> Char(c) in FirstOfBody(g, nt, body, fuel).value)
  {
    if body == [] {
      if Char(c) in FirstOfBody(g, nt, body, fuel).value {
        FollowOfSound(g, nt, fuel, c);
      }
      if d: nat :| InFollow(g, nt, c, d) {
        FollowOfComplete(g, nt, fuel, c, d);
      }
    } else if body[0].N? {
      FirstOfTerminals(g, body[0].name, fuel, c);
    }
  }

  /** For an epsilon body, firstOf(nt, "") is followSetOf(nt). */
  lemma EpsilonBodyFirstIsFollow(g: Grammar, nt: string, fuel: nat)
    requires FollowOf(g, nt, fuel).Success?
    ensures FirstOfBody(g, nt, [], fuel) == Success(Chars(FollowOf(g, nt, fuel).value))
  {
  }

  /** A FIRST set of a body never holds EPSILON unless the body leads with a non-terminal that has an epsilon body. */
  lemma FirstOfBodyEpsilon(g: Grammar, nt: string, body: Body, fuel: nat)
    requires FirstOfBody(g, nt, body, fuel).Success?
    ensures Epsilon in FirstOfBody(g, nt, body, fuel).value <==> body != [] && body[0].N? && HasEpsilonBody(g, body[0].name)
  {
  }

  // ---------------------------------------------------------------------------
  // The branch that reads the character after the last <x> (see README, Findings)

  /** Position of the last <x> in the body. */
  function LastIndexOf(b: Body, x: string): (k: nat)
    requires N(x) in b
    ensures k < |b| && b[k] == N(x)
    ensures forall j :: k < j < |b| ==> b[j] != N(x)
  {
    if b[|b| - 1] == N(x) then |b| - 1 else LastIndexOf(b[..|b| - 1], x)
  }

  /**
   * The character Grammar.java adds in that branch, as written: the second
   * character of the text after the LAST <x>.  That is the terminal when a
   * terminal follows, the first letter of a following non-terminal's name
   * (or '>' for an empty name) when one follows, and None when <x> is last
   * (the substring call throws StringIndexOutOfBoundsException).
   */
  function AsWrittenFollowChar(b: Body, x: string): Option<char>
    requires TerminalFollows(b, x)
  {
    var k := LastIndexOf(b, x);
    if k + 1 == |b| then None
    else
      match b[k + 1]
      case T(c) => Some(c)
      case N(y) => Some(if y == [] then '>' else y[0])
  }

  /**
   * The branch as written adds a letter of a non-terminal's name to FOLLOW
   * on <X>'+'<X><Y>, throws on <X>'+'<X>, and adds only '-' on
   * <X>'+'<X>'-'; the corrected branch adds every terminal that stands
   * right after an <X>.
   */
  lemma LastOccurrenceMisread()
    ensures var b := [N("X"), T('+'), N("X"), N("Y")];
      TerminalFollows(b, "X") && AsWrittenFollowChar(b, "X") == Some('Y')
      && 'Y' !in TerminalsOf(b) && TerminalsAfter(b, "X") == {'+'}
    ensures var b := [N("X"), T('+'), N("X")];
      TerminalFollows(b, "X") && AsWrittenFollowChar(b, "X") == None
      && TerminalsAfter(b, "X") == {'+'}
    ensures var b := [N("X"), T('+'), N("X"), T('-')];
      TerminalFollows(b, "X") && AsWrittenFollowChar(b, "X") == Some('-')
      && TerminalsAfter(b, "X") == {'+', '-'}
  {
    LastOccurrenceName();
    LastOccurrencePastEnd();
    LastOccurrenceOnly();
  }

  /** On <X>'+'<X><Y> the branch as written adds 'Y', which is no terminal. */
  lemma LastOccurrenceName()
    ensures var b := [N("X"), T('+'), N("X"), N("Y")];
      TerminalFollows(b, "X") && AsWrittenFollowChar(b, "X") == Some('Y')
      && 'Y' !in TerminalsOf(b) && TerminalsAfter(b, "X") == {'+'}
  {
    var b := [N("X"), T('+'), N("X"), N("Y")];
    assert TerminalAt(b, "X", 0);
    assert LastIndexOf(b, "X") == 2;
    assert forall k: nat :: TerminalAt(b, "X", k) ==> k == 0;
    assert TerminalsOf(b) == {'+'};
  }

  /** On <X>'+'<X> the branch as written reads past the end of the body. */
  lemma LastOccurrencePastEnd()
    ensures var b := [N("X"), T('+'), N("X")];
      TerminalFollows(b, "X") && AsWrittenFollowChar(b, "X") == None
      && TerminalsAfter(b, "X") == {'+'}
  {
    var b := [N("X"), T('+'), N("X")];
    assert TerminalAt(b, "X", 0);
    assert LastIndexOf(b, "X") == 2;
    assert forall k: nat :: TerminalAt(b, "X", k) ==> k == 0;
  }

  /** On <X>'+'<X>'-' the branch as written adds only '-'; the corrected branch adds '+' and '-'. */
  lemma LastOccurrenceOnly()
    ensures var b := [N("X"), T('+'), N("X"), T('-')];
      TerminalFollows(b, "X") && AsWrittenFollowChar(b, "X") == Some('-')
      && TerminalsAfter(b, "X") == {'+', '-'}
  {
    var b := [N("X"), T('+'), N("X"), T('-')];
    assert TerminalAt(b, "X", 0) && TerminalAt(b, "X", 2);
    assert LastIndexOf(b, "X") == 2;
    assert forall k: nat :: TerminalAt(b, "X", k) ==> k == 0 || k == 2;
  }

  /**
   * Where the source's reading is right (one <x>, followed by a terminal),
   * the corrected branch adds exactly the same terminal.
   */
  lemma {:induction false} CorrectedAgreesOnSingleOccurrence(b: Body, x: string, k: nat)
    requires k + 1 < |b| && b[k] == N(x) && b[k + 1].T?
    requires forall j :: 0 <= j < |b| && j != k ==> b[j] != N(x)
    ensures TerminalFollows(b, x)
    ensures AsWrittenFollowChar(b, x) == Some(b[k + 1].c)
    ensures TerminalsAfter(b, x) == {b[k + 1].c}
  {
    assert TerminalAt(b, x, k);
    assert LastIndexOf(b, x) == k;
  }
}
