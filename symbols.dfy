/**
 * Grammar symbols and productions.  In the repository a production body is
 * kept as BNF text such as <B>'|'<C>; here it is the sequence of symbols that
 * text spells, with the empty sequence standing for an epsilon production.
 */
module Symbols {

  /** A one-character terminal 'c' or a bracketed non-terminal <name>. */
  datatype Sym = T(c: char) | N(name: string)

  type Body = seq<Sym>

  /** One `<head> ::= body` production. */
  datatype Rule = Rule(head: string, body: Body)

  /** Grammar.EOF, the end-of-input marker. */
  const EndMarker: char := '$'

  /** The string under which the parser stacks a symbol. */
  function SymbolName(s: Sym): string
  {
    match s
    case T(c) => [c]
    case N(n) => n
  }

  /**
   * Grammar.fromBNF: a body split into the stack strings of its symbols, in
   * order (a terminal becomes its one-character string, a non-terminal its
   * name).
   */
  function FromBnf(b: Body): (r: seq<string>)
    ensures |r| == |b|
    ensures forall k :: 0 <= k < |b| ==> r[k] == SymbolName(b[k])
  {
    if b == [] then [] else [SymbolName(b[0])] + FromBnf(b[1..])
  }

  /** The terminals a body mentions. */
  function TerminalsOf(b: Body): set<char>
  {
    set s | s in b && s.T? :: s.c
  }

  /** Reversal of a sequence; the last element comes first. */
  function Reverse<A>(s: seq<A>): (r: seq<A>)
    ensures |r| == |s|
    ensures forall k :: 0 <= k < |s| ==> r[k] == s[|s| - 1 - k]
  {
    if s == [] then [] else [s[|s| - 1]] + Reverse(s[..|s| - 1])
  }

  /** Pushing the elements of s in reverse order leaves s[0] on top. */
  lemma {:induction false} ReverseCons<A>(x: A, s: seq<A>)
    ensures Reverse([x] + s) == Reverse(s) + [x]
  {
    var r := Reverse([x] + s);
    assert |r| == |s| + 1;
    forall k | 0 <= k < |s| + 1
      ensures r[k] == (Reverse(s) + [x])[k]
    {
      if k < |s| {
        assert ([x] + s)[|s| - k] == s[|s| - 1 - k];
      }
    }
  }
}
