/**
 * The text level of the BNF dialect: the library string operations the
 * repository relies on (String.trim, String.split("::="), indexOf,
 * replaceAll("\\s+", "")), the scan for quoted terminals done by the grammar
 * line parser, and the reading of a body text as a sequence of symbols.
 */
module BnfText {
  import opened Wrappers
  import opened Symbols

  /** The characters String.trim removes: every code point up to U+0020. */
  predicate IsBlank(ch: char)
  {
    ch <= ' '
  }

  /** The characters the regex class \s matches: space, \t, \n, \x0B, \f, \r. */
  predicate IsWhitespace(ch: char)
  {
    ch == ' ' || ch == '\t' || ch == '\n' || ch as int == 11 || ch as int == 12 || ch == '\r'
  }

  function TrimStart(s: string): (r: string)
    ensures |r| <= |s| && r == s[|s| - |r|..]
    ensures r == [] || !IsBlank(r[0])
    ensures forall k :: 0 <= k < |s| - |r| ==> IsBlank(s[k])
  {
    if s != [] && IsBlank(s[0]) then TrimStart(s[1..]) else s
  }

  function TrimEnd(s: string): (r: string)
    ensures |r| <= |s| && r == s[..|r|]
    ensures r == [] || !IsBlank(r[|r| - 1])
    ensures forall k :: |r| <= k < |s| ==> IsBlank(s[k])
  {
    if s != [] && IsBlank(s[|s| - 1]) then TrimEnd(s[..|s| - 1]) else s
  }

  /**
   * String.trim: the slice of s left when the blanks at both ends are
   * removed; it starts and ends with a non-blank.
   */
  function Trim(s: string): (r: string)
    ensures r == [] || (!IsBlank(r[0]) && !IsBlank(r[|r| - 1]))
    ensures exists i, j ::
      && 0 <= i <= j <= |s| && r == s[i..j]
      && (forall k :: 0 <= k < i ==> IsBlank(s[k]))
      && (forall k :: j <= k < |s| ==> IsBlank(s[k]))
  {
    var t := TrimStart(s);
    var i := |s| - |t|;
    var r := TrimEnd(t);
    assert r == s[i..i + |r|];
    assert forall k :: i + |r| <= k < |s| ==> s[k] == t[k - i];
    r
  }

  /** A trimmed text that starts with a non-blank is a prefix of the original. */
  lemma TrimKeepsPrefix(s: string)
    requires s != [] && !IsBlank(s[0])
    ensures Trim(s) == s[..|Trim(s)|]
  {
  }

  /** replaceAll("\\s+", ""): every whitespace character removed. */
  function StripWhitespace(s: string): (r: string)
    ensures forall k :: 0 <= k < |r| ==> !IsWhitespace(r[k])
  {
    if s == [] then []
    else if IsWhitespace(s[0]) then StripWhitespace(s[1..])
    else [s[0]] + StripWhitespace(s[1..])
  }

  /** Stripping works character by character: a text's pieces are stripped on their own. */
  lemma {:induction false} StripWhitespaceConcat(a: string, b: string)
    ensures StripWhitespace(a + b) == StripWhitespace(a) + StripWhitespace(b)
    decreases |a|
  {
    if a == [] {
      assert a + b == b;
    } else {
      assert (a + b)[0] == a[0] && (a + b)[1..] == a[1..] + b;
      StripWhitespaceConcat(a[1..], b);
      if !IsWhitespace(a[0]) {
        assert [a[0]] + (StripWhitespace(a[1..]) + StripWhitespace(b))
          == ([a[0]] + StripWhitespace(a[1..])) + StripWhitespace(b);
      }
    }
  }

  /** One character is dropped exactly when it is whitespace, and kept otherwise. */
  lemma StripWhitespaceChar(ch: char)
    ensures StripWhitespace([ch]) == if IsWhitespace(ch) then [] else [ch]
  {
    assert [ch][1..] == [];
  }

  /** Whitespace around a slice strips away with it. */
  lemma {:induction false} StripAround(s: string, i: nat, j: nat)
    requires i <= j <= |s|
    requires forall k :: 0 <= k < i ==> IsWhitespace(s[k])
    requires forall k :: j <= k < |s| ==> IsWhitespace(s[k])
    ensures StripWhitespace(s[i..j]) == StripWhitespace(s)
    decreases |s|
  {
    if 0 < i {
      StripDropFirst(s);
      StripAround(s[1..], i - 1, j - 1);
      assert s[1..][i - 1..j - 1] == s[i..j];
    } else if j < |s| {
      StripDropLast(s);
      StripAround(s[..|s| - 1], 0, j);
      assert s[..|s| - 1][0..j] == s[0..j];
    } else {
      assert s[0..|s|] == s;
    }
  }

  /** A leading whitespace character strips away. */
  lemma StripDropFirst(s: string)
    requires s != [] && IsWhitespace(s[0])
    ensures StripWhitespace(s) == StripWhitespace(s[1..])
  {
  }

  /** A trailing whitespace character strips away. */
  lemma StripDropLast(s: string)
    requires s != [] && IsWhitespace(s[|s| - 1])
    ensures StripWhitespace(s) == StripWhitespace(s[..|s| - 1])
  {
    var init, last := s[..|s| - 1], s[|s| - 1];
    assert s == init + [last];
    StripWhitespaceConcat(init, [last]);
    StripWhitespaceChar(last);
    assert StripWhitespace(init) + [] == StripWhitespace(init);
  }

  lemma StripTrimmed(s: string)
    requires forall k :: 0 <= k < |s| && IsBlank(s[k]) ==> IsWhitespace(s[k])
    ensures StripWhitespace(Trim(s)) == StripWhitespace(s)
  {
    var i, j :|
      && 0 <= i <= j <= |s| && Trim(s) == s[i..j]
      && (forall k :: 0 <= k < i ==> IsBlank(s[k]))
      && (forall k :: j <= k < |s| ==> IsBlank(s[k]));
    StripAround(s, i, j);
  }

  /**
   * indexOf(ch, from): the first position at or after `from` holding ch, or
   * |s| when there is none (where Java answers -1).
   */
  function FindChar(s: string, ch: char, from: nat): (k: nat)
    requires from <= |s|
    ensures from <= k <= |s|
    ensures k < |s| ==> s[k] == ch
    ensures forall j :: from <= j < k ==> s[j] != ch
    decreases |s| - from
  {
    if from == |s| || s[from] == ch then from else FindChar(s, ch, from + 1)
  }

  /**
   * The pieces of s between the occurrences of the separator "::=", found
   * left to right without overlap, as the regex matcher behind split finds
   * them.
   */
  function Pieces(s: string): (r: seq<string>)
    ensures |r| >= 1
    decreases |s|
  {
    if s == [] then [""]
    else if |s| >= 3 && s[..3] == "::=" then [""] + Pieces(s[3..])
    else
      var rest := Pieces(s[1..]);
      [[s[0]] + rest[0]] + rest[1..]
  }

  function DropTrailingEmpty(p: seq<string>): (r: seq<string>)
    ensures |r| <= |p| && r == p[..|r|]
    ensures r == [] || r[|r| - 1] != []
    ensures p != [] && p[0] != [] ==> r != []
  {
    if p != [] && p[|p| - 1] == [] then DropTrailingEmpty(p[..|p| - 1]) else p
  }

  /**
   * split("::="): the pieces, except that trailing empty pieces are dropped
   * whenever the separator occurs at all.
   */
  function Fields(s: string): seq<string>
  {
    var p := Pieces(s);
    if |p| == 1 then p else DropTrailingEmpty(p)
  }

  /** The first field of a line is the text before its first separator. */
  lemma {:induction false} FirstPieceIsPrefix(s: string)
    ensures |Pieces(s)[0]| <= |s| && Pieces(s)[0] == s[..|Pieces(s)[0]|]
    decreases |s|
  {
    if s == [] || (|s| >= 3 && s[..3] == "::=") {
    } else {
      FirstPieceIsPrefix(s[1..]);
    }
  }

  /** A non-terminal name the text form can carry unambiguously. */
  predicate WellFormedName(n: string)
  {
    forall k :: 0 <= k < |n| ==> n[k] != '<' && n[k] != '>' && n[k] != '\''
  }

  predicate WellFormedBody(b: Body)
  {
    forall s :: s in b && s.N? ==> WellFormedName(s.name)
  }

  /** The BNF text of one symbol: 'c' or <name>. */
  function SymText(s: Sym): string
  {
    match s
    case T(c) => ['\'', c, '\'']
    case N(n) => "<" + n + ">"
  }

  /** The BNF text of a body: its symbols' texts, concatenated. */
  function ToBnf(b: Body): string
  {
    if b == [] then "" else SymText(b[0]) + ToBnf(b[1..])
  }

  /**
   * Reads a body text as symbols: 'c' is a terminal, <name> a non-terminal
   * whose name runs to the first '>'.  Any other text is refused.
   */
  function Tokenize(s: string): (r: Option<Body>)
    decreases |s|
  {
    if s == [] then Some([])
    else if s[0] == '\'' then
      if |s| >= 3 && s[2] == '\'' then
        match Tokenize(s[3..])
        case None => None
        case Some(rest) => Some([T(s[1])] + rest)
      else None
    else if s[0] == '<' then
      var k := FindChar(s, '>', 1);
      if k == |s| || !WellFormedName(s[1..k]) then None
      else
        match Tokenize(s[k + 1..])
        case None => None
        case Some(rest) => Some([N(s[1..k])] + rest)
    else None
  }

  /** Reading the text of a well-formed body gives the body back. */
  lemma {:induction false} TokenizeToBnf(b: Body)
    requires WellFormedBody(b)
    ensures Tokenize(ToBnf(b)) == Some(b)
  {
    if b != [] {
      assert b[0] in b;
      TokenizeToBnf(b[1..]);
      TokenizeSymText(b[0], ToBnf(b[1..]));
      assert [b[0]] + b[1..] == b;
    }
  }

  /** The reader takes one symbol's text off the front of a text. */
  lemma TokenizeSymText(x: Sym, t: string)
    requires x.N? ==> WellFormedName(x.name)
    ensures Tokenize(SymText(x) + t) ==
      match Tokenize(t) case None => None case Some(r) => Some([x] + r)
  {
    var s := SymText(x) + t;
    match x
    case T(c) =>
      assert s[3..] == t;
    case N(n) =>
      var k := |n| + 1;
      assert s[k] == '>';
      assert forall j :: 1 <= j < k ==> s[j] == n[j - 1];
      assert FindChar(s, '>', 1) == k;
      assert s[1..k] == n;
      assert s[k + 1..] == t;
  }

  /** The first symbol of a text the reader accepts, and where its text ends. */
  lemma TokenizeHead(s: string) returns (sym: Sym, k: nat)
    requires s != [] && Tokenize(s).Some?
    ensures k < |s| && s[..k + 1] == SymText(sym)
    ensures Tokenize(s[k + 1..]).Some?
    ensures Tokenize(s).value == [sym] + Tokenize(s[k + 1..]).value
    ensures sym.N? ==> WellFormedName(sym.name)
  {
    if s[0] == '\'' {
      sym, k := T(s[1]), 2;
      assert s[..3] == ['\'', s[1], '\''];
    } else {
      k := FindChar(s, '>', 1);
      sym := N(s[1..k]);
      assert s[..k + 1] == "<" + s[1..k] + ">";
    }
  }

  /** Every text the reader accepts is the text of a well-formed body. */
  lemma {:induction false} ToBnfTokenize(s: string)
    requires Tokenize(s).Some?
    ensures WellFormedBody(Tokenize(s).value)
    ensures ToBnf(Tokenize(s).value) == s
    decreases |s|
  {
    if s != [] {
      var sym, k := TokenizeHead(s);
      var rest := Tokenize(s[k + 1..]).value;
      ToBnfTokenize(s[k + 1..]);
      ToBnfCons(sym, rest);
      assert s == s[..k + 1] + s[k + 1..];
    }
  }

  /** The text of a body is the text of its first symbol followed by that of the rest. */
  lemma ToBnfCons(sym: Sym, rest: Body)
    requires sym.N? ==> WellFormedName(sym.name)
    requires WellFormedBody(rest)
    ensures WellFormedBody([sym] + rest)
    ensures ToBnf([sym] + rest) == SymText(sym) + ToBnf(rest)
  {
    var b := [sym] + rest;
    assert b[0] == sym && b[1..] == rest;
  }

  /**
   * The terminal scan of the grammar line parser: at each quote the next
   * character is a terminal and the scan resumes three characters on.  A
   * quote in the last position makes the source read past the end of the
   * body (None).
   */
  function QuotedChars(s: string): (r: Option<set<char>>)
    decreases |s|
  {
    if s == [] then Some({})
    else if s[0] != '\'' then QuotedChars(s[1..])
    else if |s| == 1 then None
    else
      match QuotedChars(s[if |s| < 3 then |s| else 3..])
      case None => None
      case Some(rest) => Some({s[1]} + rest)
  }

  /** Text holding no quote adds nothing to the scan. */
  lemma {:induction false} QuotedCharsSkip(s: string, j: nat)
    requires j <= |s|
    requires forall i :: 0 <= i < j ==> s[i] != '\''
    ensures QuotedChars(s) == QuotedChars(s[j..])
    decreases j
  {
    if j > 0 {
      QuotedCharsSkip(s[1..], j - 1);
      assert s[1..][j - 1..] == s[j..];
    }
  }

  lemma TerminalsOfCons(sym: Sym, rest: Body)
    ensures TerminalsOf([sym] + rest) == (if sym.T? then {sym.c} else {}) + TerminalsOf(rest)
  {
    var b := [sym] + rest;
    forall c | c in TerminalsOf(b) ensures c in (if sym.T? then {sym.c} else {}) + TerminalsOf(rest) {
      var x :| x in b && x.T? && x.c == c;
      if x != sym { assert x in rest; }
    }
    forall c | c in TerminalsOf(rest) ensures c in TerminalsOf(b) {
      var x :| x in rest && x.T? && x.c == c;
      assert x in b;
    }
  }

  lemma QuotedCharsAtQuote(s: string)
    requires |s| >= 3 && s[0] == '\''
    ensures QuotedChars(s) == match QuotedChars(s[3..]) case None => None case Some(r) => Some({s[1]} + r)
  {
  }

  /** The scan passes over the text of a non-terminal without finding anything. */
  lemma QuotedCharsAtName(s: string, name: string, k: nat)
    requires k < |s| && s[..k + 1] == "<" + name + ">" && WellFormedName(name)
    ensures QuotedChars(s) == QuotedChars(s[k + 1..])
  {
    assert forall i :: 1 <= i < k ==> s[i] == name[i - 1];
    QuotedCharsSkip(s, k + 1);
  }

  /** The scan over a terminal's text, then the rest. */
  lemma QuotedCharsAtTerminal(s: string, c: char, k: nat)
    requires k < |s| && s[..k + 1] == ['\'', c, '\'']
    ensures k == 2
    ensures QuotedChars(s) == match QuotedChars(s[3..]) case None => None case Some(r) => Some({c} + r)
  {
    assert |s[..k + 1]| == 3;
    assert s[0] == s[..k + 1][0] && s[1] == s[..k + 1][1];
    QuotedCharsAtQuote(s);
  }

  /** On a body text that reads as symbols, the scan finds exactly its terminals. */
  lemma {:induction false} QuotedCharsAreTerminals(s: string)
    requires Tokenize(s).Some?
    ensures QuotedChars(s) == Some(TerminalsOf(Tokenize(s).value))
    decreases |s|
  {
    if s != [] {
      var sym, k := TokenizeHead(s);
      var rest := Tokenize(s[k + 1..]).value;
      QuotedCharsAreTerminals(s[k + 1..]);
      TerminalsOfCons(sym, rest);
      if sym.T? {
        QuotedCharsAtTerminal(s, sym.c, k);
      } else {
        QuotedCharsAtName(s, sym.name, k);
        assert {} + TerminalsOf(rest) == TerminalsOf(rest);
      }
    } else {
      assert TerminalsOf([]) == {};
    }
  }
}
