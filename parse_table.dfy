/**
 * ParseTable.java: the LL(1) table, filled production by production with
 * table[head, t] = body for every t in firstOf(head, body), and the lookup
 * the parser performs.  A later production writing the same cell replaces
 * the earlier one, as HashBasedTable.put does; nothing reports the clash.
 */
module ParseTables {
  import opened Wrappers
  import opened Symbols
  import opened Grammars
  import opened FirstFollow

  /** The cells of the table: (head, lookahead) to the body to expand with. */
  type Cells = map<(string, Lookahead), Body>

  /** The cell (head, t), if the table holds one. */
  function Lookup(cells: Cells, head: string, t: Lookahead): (r: Option<Body>)
    ensures r.Some? <==> (head, t) in cells
    ensures r.Some? ==> r.value == cells[(head, t)]
  {
    if (head, t) in cells then Some(cells[(head, t)]) else None
  }

  /** table.put(head, t, body) for every t in `firsts`. */
  function PutAll(cells: Cells, head: string, firsts: set<Lookahead>, body: Body): (r: Cells)
    ensures forall k :: k in r <==> k in cells || (k.0 == head && k.1 in firsts)
    ensures forall k :: k in r ==> r[k] == if k.0 == head && k.1 in firsts then body else cells[k]
  {
    map k | k in cells.Keys + (set t | t in firsts :: (head, t)) ::
      if k.0 == head && k.1 in firsts then body else cells[k]
  }

  /** The table after some productions, and the error that stopped the filling, if any. */
  datatype Filling = Filling(cells: Cells, error: Option<Error>)

  /** What firstOf(head, body) gives for one production. */
  type FirstResult = Result<set<Lookahead>, Error>

  /** firstOf(head, body) for each production, in order. */
  function FirstSets(g: Grammar, rs: seq<Rule>, fuel: nat): (fs: seq<FirstResult>)
    ensures |fs| == |rs|
    ensures forall i :: 0 <= i < |rs| ==> fs[i] == FirstOfBody(g, rs[i].head, rs[i].body, fuel)
  {
    seq(|rs|, i requires 0 <= i < |rs| => FirstOfBody(g, rs[i].head, rs[i].body, fuel))
  }

  /**
   * generate over the productions `rs`, in order, from the table `start`,
   * production i having the FIRST-set result fs[i]: the first failure stops
   * the filling with its error and leaves the cells written so far.
   */
  function FillWith(rs: seq<Rule>, fs: seq<FirstResult>, start: Cells): Filling
    requires |fs| == |rs|
  {
    if rs == [] then Filling(start, None)
    else
      var n := |rs| - 1;
      var before := FillWith(rs[..n], fs[..n], start);
      if before.error.Some? then before
      else
        match fs[n]
        case Failure(e) => Filling(before.cells, Some(e))
        case Success(firsts) => Filling(PutAll(before.cells, rs[n].head, firsts, rs[n].body), None)
  }

  /** generate over the productions `rs` of g, from the table `start`. */
  function Fill(g: Grammar, rs: seq<Rule>, start: Cells, fuel: nat): Filling
  {
    FillWith(rs, FirstSets(g, rs, fuel), start)
  }

  /** Production i of rs has head h and t in its FIRST-set result. */
  predicate SelectsWith(rs: seq<Rule>, fs: seq<FirstResult>, i: int, h: string, t: Lookahead)
    requires |fs| == |rs|
  {
    0 <= i < |rs| && rs[i].head == h && fs[i].Success? && t in fs[i].value
  }

  /** Production i of rs has head h and t in its FIRST set. */
  predicate Selects(g: Grammar, rs: seq<Rule>, fuel: nat, i: int, h: string, t: Lookahead)
  {
    0 <= i < |rs| && rs[i].head == h &&
    FirstOfBody(g, h, rs[i].body, fuel).Success? && t in FirstOfBody(g, h, rs[i].body, fuel).value
  }

  class ParseTable {
    const grammar: Grammar
    var table: Cells

    constructor(grammar: Grammar)
      ensures this.grammar == grammar && table == map[]
    {
      this.grammar := grammar;
      table := map[];
    }

    /**
     * generate: for each production, its FIRST set (firstOf(head, body)),
     * then table[head, t] = body for each t in it.  The error of a FIRST
     * set that cannot be computed is returned where the source throws.
     */
    method Generate(fuel: nat) returns (error: Option<Error>)
      modifies this
      ensures Filling(table, error) == Fill(grammar, grammar.rules, old(table), fuel)
    {
      ghost var rules := grammar.rules;
      ghost var fs := FirstSets(grammar, rules, fuel);
      var i := 0;
      while i < |grammar.rules|
        invariant 0 <= i <= |rules|
        invariant FillWith(rules[..i], fs[..i], old(table)) == Filling(table, None)
      {
        var rule := grammar.rules[i];
        var firstSets := FirstOfBody(grammar, rule.head, rule.body, fuel);
        assert firstSets == fs[i];
        SliceStep(rules, fs, i);
        if firstSets.Failure? {
          FillWithStops(rules, fs, old(table), i + 1);
          return Some(firstSets.error);
        }
        PutRule(rule.head, firstSets.value, rule.body);
        i := i + 1;
      }
      assert rules[..i] == rules && fs[..i] == fs;
      return None;
    }

    /** The inner loop of generate: table[head, t] = body for each t in firsts. */
    method PutRule(head: string, firsts: set<Lookahead>, body: Body)
      modifies this
      ensures table == PutAll(old(table), head, firsts, body)
    {
      var rest := firsts;
      while rest != {}
        invariant rest <= firsts
        invariant table == PutAll(old(table), head, firsts - rest, body)
        decreases |rest|
      {
        var terminal :| terminal in rest;
        PutOneMore(old(table), head, firsts - rest, terminal, body);
        table := table[(head, terminal) := body];
        assert firsts - (rest - {terminal}) == (firsts - rest) + {terminal};
        rest := rest - {terminal};
      }
      assert firsts - rest == firsts;
    }

    /** ruleToApply: the body in cell (nonTerminal, terminal), if any. */
    function RuleToApply(nonTerminal: string, terminal: Lookahead): (r: Option<Body>)
      reads this
      ensures r.Some? <==> (nonTerminal, terminal) in table
      ensures r.Some? ==> r.value == table[(nonTerminal, terminal)]
    {
      Lookup(table, nonTerminal, terminal)
    }
  }

  /** Writing one more cell of the same production. */
  lemma PutOneMore(cells: Cells, head: string, done: set<Lookahead>, t: Lookahead, body: Body)
    ensures PutAll(cells, head, done, body)[(head, t) := body] == PutAll(cells, head, done + {t}, body)
  {
  }

  /** One production more: the shorter lists are the prefixes of the longer ones. */
  lemma SliceStep(rs: seq<Rule>, fs: seq<FirstResult>, i: nat)
    requires |fs| == |rs| && i < |rs|
    ensures rs[..i + 1][..i] == rs[..i] && fs[..i + 1][..i] == fs[..i]
    ensures rs[..i + 1][i] == rs[i] && fs[..i + 1][i] == fs[i]
  {
  }

  // ---------------------------------------------------------------------------
  // The filling over any FIRST-set results

  /** A failure stops the filling: later productions change nothing. */
  lemma {:induction false} FillWithStops(rs: seq<Rule>, fs: seq<FirstResult>, start: Cells, n: nat)
    requires |fs| == |rs| && n <= |rs| && FillWith(rs[..n], fs[..n], start).error.Some?
    ensures FillWith(rs, fs, start) == FillWith(rs[..n], fs[..n], start)
    decreases |rs|
  {
    if n == |rs| {
      assert rs[..n] == rs && fs[..n] == fs;
    } else {
      var m := |rs| - 1;
      assert rs[..m][..n] == rs[..n] && fs[..m][..n] == fs[..n];
      FillWithStops(rs[..m], fs[..m], start, n);
    }
  }

  /** The filling completes exactly when every FIRST-set result is a success. */
  lemma {:induction false} FillWithSucceeds(rs: seq<Rule>, fs: seq<FirstResult>, start: Cells)
    requires |fs| == |rs|
    ensures FillWith(rs, fs, start).error.None? <==> forall i :: 0 <= i < |fs| ==> fs[i].Success?
  {
    if rs != [] {
      var m := |rs| - 1;
      FillWithSucceeds(rs[..m], fs[..m], start);
      assert forall i :: 0 <= i < m ==> fs[..m][i] == fs[i];
    }
  }

  /** The error of a filling that stops is that of the first failing result. */
  lemma {:induction false} FillWithError(rs: seq<Rule>, fs: seq<FirstResult>, start: Cells)
    requires |fs| == |rs| && FillWith(rs, fs, start).error.Some?
    ensures exists i ::
      && 0 <= i < |fs|
      && fs[i] == Failure(FillWith(rs, fs, start).error.value)
      && forall j :: 0 <= j < i ==> fs[j].Success?
  {
    var m := |rs| - 1;
    var e := FillWith(rs, fs, start).error.value;
    if FillWith(rs[..m], fs[..m], start).error.Some? {
      FillWithError(rs[..m], fs[..m], start);
      var i :| 0 <= i < m && fs[..m][i] == Failure(e) && forall j :: 0 <= j < i ==> fs[..m][j].Success?;
      assert forall j :: 0 <= j <= i ==> fs[..m][j] == fs[j];
    } else {
      FillWithSucceeds(rs[..m], fs[..m], start);
      assert forall j :: 0 <= j < m ==> fs[..m][j] == fs[j];
      assert fs[m] == Failure(e);
    }
  }

  /** The productions before the last select a cell as they do in the shorter lists. */
  lemma SelectsWithFront(rs: seq<Rule>, fs: seq<FirstResult>, h: string, t: Lookahead)
    requires |fs| == |rs| && rs != []
    ensures forall i :: 0 <= i < |rs| - 1 ==>
      (SelectsWith(rs, fs, i, h, t) <==> SelectsWith(rs[..|rs| - 1], fs[..|rs| - 1], i, h, t))
  {
  }

  /** A completed filling is the last production's puts over the completed filling before it. */
  lemma FillWithLastStep(rs: seq<Rule>, fs: seq<FirstResult>, start: Cells)
    requires |fs| == |rs| && rs != [] && FillWith(rs, fs, start).error.None?
    ensures FillWith(rs[..|rs| - 1], fs[..|rs| - 1], start).error.None?
    ensures fs[|rs| - 1].Success?
    ensures FillWith(rs, fs, start).cells ==
      PutAll(FillWith(rs[..|rs| - 1], fs[..|rs| - 1], start).cells, rs[|rs| - 1].head, fs[|rs| - 1].value, rs[|rs| - 1].body)
  {
  }

  /** Cell (h, t) is present exactly when it was at the start or some production selects it. */
  lemma {:induction false} FillWithPresent(rs: seq<Rule>, fs: seq<FirstResult>, start: Cells, h: string, t: Lookahead)
    requires |fs| == |rs| && FillWith(rs, fs, start).error.None?
    ensures (h, t) in FillWith(rs, fs, start).cells <==>
      (h, t) in start || exists i :: SelectsWith(rs, fs, i, h, t)
  {
    if rs != [] {
      var m := |rs| - 1;
      FillWithLastStep(rs, fs, start);
      FillWithPresent(rs[..m], fs[..m], start, h, t);
      PutAllKeeps(FillWith(rs[..m], fs[..m], start).cells, rs[m].head, fs[m].value, rs[m].body, (h, t));
      if exists i :: SelectsWith(rs, fs, i, h, t) {
        var i :| SelectsWith(rs, fs, i, h, t);
        if i < m {
          assert rs[..m][i] == rs[i] && fs[..m][i] == fs[i];
          assert SelectsWith(rs[..m], fs[..m], i, h, t);
        }
      }
      if exists i :: SelectsWith(rs[..m], fs[..m], i, h, t) {
        var i :| SelectsWith(rs[..m], fs[..m], i, h, t);
        assert rs[..m][i] == rs[i] && fs[..m][i] == fs[i];
        assert SelectsWith(rs, fs, i, h, t);
      }
      if SelectsWith(rs, fs, m, h, t) {
        assert (h, t) in FillWith(rs, fs, start).cells;
      }
    }
  }

  /** A selected cell holds the body of the last production that selects it. */
  lemma {:induction false} FillWithLast(rs: seq<Rule>, fs: seq<FirstResult>, start: Cells, h: string, t: Lookahead, i: nat)
    requires |fs| == |rs| && FillWith(rs, fs, start).error.None?
    requires SelectsWith(rs, fs, i, h, t) && forall j :: i < j < |rs| ==> !SelectsWith(rs, fs, j, h, t)
    ensures (h, t) in FillWith(rs, fs, start).cells && FillWith(rs, fs, start).cells[(h, t)] == rs[i].body
  {
    var m := |rs| - 1;
    FillWithLastStep(rs, fs, start);
    if i < m {
      forall j | i < j < m
        ensures !SelectsWith(rs[..m], fs[..m], j, h, t)
      {
        assert !SelectsWith(rs, fs, j, h, t);
        assert rs[..m][j] == rs[j] && fs[..m][j] == fs[j];
      }
      assert SelectsWith(rs[..m], fs[..m], i, h, t) by {
        assert rs[..m][i] == rs[i] && fs[..m][i] == fs[i];
      }
      assert !SelectsWith(rs, fs, m, h, t);
      FillWithLast(rs[..m], fs[..m], start, h, t, i);
      var before := FillWith(rs[..m], fs[..m], start).cells;
      PutAllKeeps(before, rs[m].head, fs[m].value, rs[m].body, (h, t));
    } else {
      PutAllKeeps(FillWith(rs[..m], fs[..m], start).cells, rs[m].head, fs[m].value, rs[m].body, (h, t));
    }
  }

  /** One cell of PutAll: written when its key is selected, kept otherwise. */
  lemma PutAllKeeps(cells: Cells, head: string, firsts: set<Lookahead>, body: Body, k: (string, Lookahead))
    ensures k in PutAll(cells, head, firsts, body) <==> k in cells || (k.0 == head && k.1 in firsts)
    ensures k.0 == head && k.1 in firsts ==> PutAll(cells, head, firsts, body)[k] == body
    ensures !(k.0 == head && k.1 in firsts) && k in cells ==> PutAll(cells, head, firsts, body)[k] == cells[k]
  {
  }

  /** A cell no production selects keeps its starting value. */
  lemma {:induction false} FillWithStart(rs: seq<Rule>, fs: seq<FirstResult>, start: Cells, h: string, t: Lookahead)
    requires |fs| == |rs| && FillWith(rs, fs, start).error.None?
    requires (h, t) in start && forall i :: !SelectsWith(rs, fs, i, h, t)
    ensures (h, t) in FillWith(rs, fs, start).cells && FillWith(rs, fs, start).cells[(h, t)] == start[(h, t)]
  {
    if rs != [] {
      var m := |rs| - 1;
      FillWithLastStep(rs, fs, start);
      assert !SelectsWith(rs, fs, m, h, t);
      forall j
        ensures !SelectsWith(rs[..m], fs[..m], j, h, t)
      {
        assert !SelectsWith(rs, fs, j, h, t);
        if 0 <= j < m {
          assert rs[..m][j] == rs[j] && fs[..m][j] == fs[j];
        }
      }
      FillWithStart(rs[..m], fs[..m], start, h, t);
      PutAllKeeps(FillWith(rs[..m], fs[..m], start).cells, rs[m].head, fs[m].value, rs[m].body, (h, t));
    }
  }

  /** Every cell written over an empty start comes from a production that selects it. */
  lemma {:induction false} FillWithFrom(rs: seq<Rule>, fs: seq<FirstResult>)
    requires |fs| == |rs|
    ensures forall k :: k in FillWith(rs, fs, map[]).cells ==>
      exists i :: SelectsWith(rs, fs, i, k.0, k.1) && rs[i].body == FillWith(rs, fs, map[]).cells[k]
  {
    if rs != [] {
      var m := |rs| - 1;
      FillWithFrom(rs[..m], fs[..m]);
      SelectsWithFrontAll(rs, fs);
    }
  }

  lemma SelectsWithFrontAll(rs: seq<Rule>, fs: seq<FirstResult>)
    requires |fs| == |rs| && rs != []
    ensures forall i, h, t :: 0 <= i < |rs| - 1 && SelectsWith(rs[..|rs| - 1], fs[..|rs| - 1], i, h, t) ==>
      SelectsWith(rs, fs, i, h, t) && rs[..|rs| - 1][i] == rs[i]
  {
  }

  // ---------------------------------------------------------------------------
  // The same facts about generate's own filling

  /** The productions select cells by their FIRST sets. */
  lemma SelectsAgree(g: Grammar, rs: seq<Rule>, fuel: nat, h: string, t: Lookahead)
    ensures forall i :: Selects(g, rs, fuel, i, h, t) <==> SelectsWith(rs, FirstSets(g, rs, fuel), i, h, t)
  {
  }

  /** The filling completes exactly when every production's FIRST set can be computed. */
  lemma FillSucceeds(g: Grammar, rs: seq<Rule>, start: Cells, fuel: nat)
    ensures Fill(g, rs, start, fuel).error.None? <==>
      forall i :: 0 <= i < |rs| ==> FirstOfBody(g, rs[i].head, rs[i].body, fuel).Success?
  {
    FillWithSucceeds(rs, FirstSets(g, rs, fuel), start);
  }

  /**
   * The error of a filling that stops is the error of the first production
   * whose FIRST set cannot be computed.
   */
  lemma FillError(g: Grammar, rs: seq<Rule>, start: Cells, fuel: nat)
    requires Fill(g, rs, start, fuel).error.Some?
    ensures exists i ::
      && 0 <= i < |rs|
      && FirstOfBody(g, rs[i].head, rs[i].body, fuel) == Failure(Fill(g, rs, start, fuel).error.value)
      && forall j :: 0 <= j < i ==> FirstOfBody(g, rs[j].head, rs[j].body, fuel).Success?
  {
    var fs := FirstSets(g, rs, fuel);
    FillWithError(rs, fs, start);
    var i :| 0 <= i < |fs| && fs[i] == Failure(FillWith(rs, fs, start).error.value) &&
      forall j :: 0 <= j < i ==> fs[j].Success?;
    assert FirstOfBody(g, rs[i].head, rs[i].body, fuel) == Failure(Fill(g, rs, start, fuel).error.value);
  }

  /**
   * Cell (h, t) is present exactly when it was in the starting table or
   * some production of h has t in its FIRST set.
   */
  lemma FillCellPresent(g: Grammar, rs: seq<Rule>, start: Cells, fuel: nat, h: string, t: Lookahead)
    requires Fill(g, rs, start, fuel).error.None?
    ensures (h, t) in Fill(g, rs, start, fuel).cells <==>
      (h, t) in start || exists i :: Selects(g, rs, fuel, i, h, t)
  {
    SelectsAgree(g, rs, fuel, h, t);
    FillWithPresent(rs, FirstSets(g, rs, fuel), start, h, t);
  }

  /**
   * A cell some production selects holds the body of the LAST production
   * that selects it: a later put replaces an earlier one.
   */
  lemma FillCellLast(g: Grammar, rs: seq<Rule>, start: Cells, fuel: nat, h: string, t: Lookahead, i: nat)
    requires Fill(g, rs, start, fuel).error.None?
    requires Selects(g, rs, fuel, i, h, t)
    requires forall j :: i < j < |rs| ==> !Selects(g, rs, fuel, j, h, t)
    ensures (h, t) in Fill(g, rs, start, fuel).cells
    ensures Fill(g, rs, start, fuel).cells[(h, t)] == rs[i].body
  {
    SelectsAgree(g, rs, fuel, h, t);
    FillWithLast(rs, FirstSets(g, rs, fuel), start, h, t, i);
  }

  /** A cell no production selects keeps its starting value. */
  lemma FillCellStart(g: Grammar, rs: seq<Rule>, start: Cells, fuel: nat, h: string, t: Lookahead)
    requires Fill(g, rs, start, fuel).error.None?
    requires (h, t) in start && forall i :: !Selects(g, rs, fuel, i, h, t)
    ensures (h, t) in Fill(g, rs, start, fuel).cells
    ensures Fill(g, rs, start, fuel).cells[(h, t)] == start[(h, t)]
  {
    SelectsAgree(g, rs, fuel, h, t);
    FillWithStart(rs, FirstSets(g, rs, fuel), start, h, t);
  }

  /**
   * Every cell the filling wrote holds a production of its head, and its
   * lookahead is in that production's FIRST set; this holds whether or not
   * the filling completed.
   */
  lemma CellsFromProductions(g: Grammar, rs: seq<Rule>, fuel: nat)
    ensures forall k :: k in Fill(g, rs, map[], fuel).cells ==>
      var body := Fill(g, rs, map[], fuel).cells[k];
      Rule(k.0, body) in rs && FirstOfBody(g, k.0, body, fuel).Success? && k.1 in FirstOfBody(g, k.0, body, fuel).value
  {
    var fs := FirstSets(g, rs, fuel);
    FillWithFrom(rs, fs);
    forall k | k in Fill(g, rs, map[], fuel).cells
      ensures var body := Fill(g, rs, map[], fuel).cells[k];
        Rule(k.0, body) in rs && FirstOfBody(g, k.0, body, fuel).Success? && k.1 in FirstOfBody(g, k.0, body, fuel).value
    {
      var i :| SelectsWith(rs, fs, i, k.0, k.1) && rs[i].body == FillWith(rs, fs, map[]).cells[k];
      assert rs[i] == Rule(k.0, rs[i].body);
    }
  }
}
