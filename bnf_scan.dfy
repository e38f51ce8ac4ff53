/**
 * Grammar.nonTerminalsInBNF: the names of the non-terminals written in a
 * body text, found by scanning for '<' and then for the next '>'.  The scan
 * knows nothing of quotes, so a quoted '<' also opens a name.
 */
module BnfScan {
  import opened Wrappers
  import opened Symbols
  import opened BnfText

  /** The BNFGrammarException raised for a '<' that is never closed. */
  datatype ScanError = MissingClosingBracket(rule: string)

  /**
   * The names the scan collects, left to right: a '<' opens a name that runs
   * to the next '>', and the scan resumes after that '>'.  None when some
   * opened name is never closed.
   */
  function NamesIn(s: string): (r: Option<seq<string>>)
    ensures r.Some? ==> forall n :: n in r.value ==> '>' !in n
    decreases |s|
  {
    if s == [] then Some([])
    else if s[0] != '<' then NamesIn(s[1..])
    else
      var j := FindChar(s, '>', 1);
      if j == |s| then None
      else
        match NamesIn(s[j + 1..])
        case None => None
        case Some(rest) =>
          assert forall m :: 0 <= m < |s[1..j]| ==> s[1..j][m] == s[m + 1];
          Some([s[1..j]] + rest)
  }

  /** Some '<' has no '>' anywhere after it. */
  predicate Unclosed(s: string)
  {
    exists k :: 0 <= k < |s| && s[k] == '<' && '>' !in s[k + 1..]
  }

  /** The names of the non-terminals of a body, in order. */
  function NonTerminalNames(b: Body): (r: seq<string>)
    ensures |r| <= |b|
    ensures forall n :: n in r <==> N(n) in b
  {
    if b == [] then []
    else
      match b[0]
      case T(_) => NonTerminalNames(b[1..])
      case N(n) => [n] + NonTerminalNames(b[1..])
  }

  /**
   * nonTerminalsInBNF: for each '<' the inner loop looks for the closing
   * '>'; the name between them is collected and the outer loop resumes after
   * the '>'.
   */
  method NonTerminalsInBnf(rule: string) returns (r: Result<seq<string>, ScanError>)
    ensures r.Failure? <==> Unclosed(rule)
    ensures r.Failure? ==> r.error == MissingClosingBracket(rule)
    ensures r.Success? ==> NamesIn(rule) == Some(r.value)
  {
    UnclosedFails(rule);
    var nonterminals: seq<string> := [];
    var i := 0;
    assert rule[0..] == rule;
    assert NamesIn(rule).Some? ==> [] + NamesIn(rule).value == NamesIn(rule).value;
    while i < |rule|
      invariant 0 <= i <= |rule|
      invariant NamesIn(rule) == Prepend(nonterminals, NamesIn(rule[i..]))
    {
      if rule[i] == '<' {
        var found := false;
        var j := i + 1;
        while j < |rule|
          invariant i + 1 <= j <= |rule|
          invariant forall m :: i + 1 <= m < j ==> rule[m] != '>'
        {
          if rule[j] == '>' {
            found := true;
            break;
          }
          j := j + 1;
        }
        if !found {
          NamesAtUnclosed(rule, i);
          return Failure(MissingClosingBracket(rule));
        }
        NamesAtOpen(rule, i, j);
        PrependTwice(nonterminals, [rule[i + 1..j]], NamesIn(rule[j + 1..]));
        nonterminals := nonterminals + [rule[i + 1..j]];
        i := j;
      } else {
        NamesAtOther(rule, i);
      }
      i := i + 1;
    }
    assert rule[i..] == [];
    assert nonterminals + [] == nonterminals;
    r := Success(nonterminals);
  }

  /** The names found so far put in front of the names still to come. */
  function Prepend(found: seq<string>, rest: Option<seq<string>>): Option<seq<string>>
  {
    match rest
    case None => None
    case Some(names) => Some(found + names)
  }

  /** A '<' at i closed by the first '>' at j: the name between them comes first. */
  lemma NamesAtOpen(s: string, i: nat, j: nat)
    requires i < j < |s| && s[i] == '<' && s[j] == '>'
    requires forall m :: i + 1 <= m < j ==> s[m] != '>'
    ensures NamesIn(s[i..]) == Prepend([s[i + 1..j]], NamesIn(s[j + 1..]))
  {
    var t := s[i..];
    assert forall m :: 1 <= m < j - i ==> t[m] == s[i + m];
    assert FindChar(t, '>', 1) == j - i;
    assert t[1..j - i] == s[i + 1..j];
    assert t[j - i + 1..] == s[j + 1..];
  }

  /** A '<' at i with no '>' after it: the scan fails. */
  lemma NamesAtUnclosed(s: string, i: nat)
    requires i < |s| && s[i] == '<'
    requires forall m :: i + 1 <= m < |s| ==> s[m] != '>'
    ensures NamesIn(s[i..]) == None
  {
    var t := s[i..];
    assert forall m :: 1 <= m < |t| ==> t[m] == s[i + m];
    assert FindChar(t, '>', 1) == |t|;
  }

  /** Any other character is passed over. */
  lemma NamesAtOther(s: string, i: nat)
    requires i < |s| && s[i] != '<'
    ensures NamesIn(s[i..]) == NamesIn(s[i + 1..])
  {
    assert s[i..][1..] == s[i + 1..];
  }

  lemma PrependTwice(a: seq<string>, b: seq<string>, rest: Option<seq<string>>)
    ensures Prepend(a, Prepend(b, rest)) == Prepend(a + b, rest)
  {
    if rest.Some? {
      assert a + (b + rest.value) == (a + b) + rest.value;
    }
  }

  /** The scan fails exactly when some '<' is never closed. */
  lemma {:induction false} UnclosedFails(s: string)
    ensures NamesIn(s).None? <==> Unclosed(s)
    decreases |s|
  {
    if s != [] {
      if s[0] != '<' {
        UnclosedFails(s[1..]);
        if Unclosed(s) {
          var k :| 0 <= k < |s| && s[k] == '<' && '>' !in s[k + 1..];
          assert s[1..][k - 1] == '<' && s[1..][k..] == s[k + 1..];
        }
        if Unclosed(s[1..]) {
          var k :| 0 <= k < |s| - 1 && s[1..][k] == '<' && '>' !in s[1..][k + 1..];
          assert s[k + 1] == '<' && s[k + 2..] == s[1..][k + 1..];
        }
      } else {
        var j := FindChar(s, '>', 1);
        if j == |s| {
          assert '>' !in s[1..] by {
            forall m | 0 <= m < |s| - 1 ensures s[1..][m] != '>' {
              assert s[1..][m] == s[m + 1];
            }
          }
        } else {
          UnclosedFails(s[j + 1..]);
          assert s[j] == '>' && s[j] in s[1..];
          forall k | 0 <= k < j
            ensures s[k] == '<' ==> '>' in s[k + 1..]
          {
            assert s[k + 1..][j - k - 1] == '>';
          }
          if Unclosed(s) {
            var k :| 0 <= k < |s| && s[k] == '<' && '>' !in s[k + 1..];
            assert s[j + 1..][k - j - 1] == '<' && s[j + 1..][k - j..] == s[k + 1..];
          }
          if Unclosed(s[j + 1..]) {
            var k :| 0 <= k < |s| - j - 1 && s[j + 1..][k] == '<' && '>' !in s[j + 1..][k + 1..];
            assert s[k + j + 1] == '<' && s[k + j + 2..] == s[j + 1..][k + 1..];
          }
        }
      }
    }
  }

  /** Text holding no '<' contributes no names. */
  lemma {:induction false} NamesInSkip(s: string, j: nat)
    requires j <= |s|
    requires forall m :: 0 <= m < j ==> s[m] != '<'
    ensures NamesIn(s) == NamesIn(s[j..])
    decreases j
  {
    if j > 0 {
      NamesInSkip(s[1..], j - 1);
      assert s[1..][j - 1..] == s[j..];
    }
  }

  /**
   * On the text of a well-formed body with no '<' terminal, the scan finds
   * exactly the body's non-terminals, in order.
   */
  lemma {:induction false} NamesOfBody(b: Body)
    requires WellFormedBody(b) && T('<') !in b
    ensures NamesIn(ToBnf(b)) == Some(NonTerminalNames(b))
  {
    if b != [] {
      var s := ToBnf(b);
      var rest := ToBnf(b[1..]);
      assert s == SymText(b[0]) + rest;
      NamesOfBody(b[1..]);
      match b[0]
      case T(c) =>
        assert c != '<' by { assert b[0] in b; }
        NamesInSkip(s, 3);
        assert s[3..] == rest;
      case N(n) =>
        assert WellFormedName(n) by { assert b[0] in b; }
        var k := |n| + 1;
        assert s[k] == '>';
        assert forall m :: 1 <= m < k ==> s[m] == n[m - 1];
        assert FindChar(s, '>', 1) == k;
        assert s[1..k] == n;
        assert s[k + 1..] == rest;
    }
  }

  /** The names in a body text of the repository's tests, in order. */
  lemma ScanFindsNames()
    ensures NamesIn("'+'<B><C>") == Some(["B", "C"])
  {
    var b := [T('+'), N("B"), N("C")];
    assert b[1..][1..] == [N("C")] && b[1..][1..][1..] == [];
    assert ToBnf(b) == "'+'<B><C>";
    assert NonTerminalNames(b) == ["B", "C"];
    NamesOfBody(b);
  }

  /** The text of the repository's tests with a '<' never closed. */
  lemma ScanMissesBracket()
    ensures Unclosed("'+'<A><B><C") && NamesIn("'+'<A><B><C").None?
  {
    var u := "'+'<A><B><C";
    assert u[9] == '<' && u[10..] == "C";
    UnclosedFails(u);
  }
}
