/** The Monkey tokenizer (rust/monkey_interpreter/src/lexer.rs): a cursor
    over the program text that skips whitespace and cuts one token at a
    time. */
module MonkeyLexer {
  import opened Common
  import opened MonkeyToken

  /** `is_identifier_char` (`char::is_alphabetic`), restricted to ASCII letters. */
  predicate IsIdentifierChar(c: char) {
    'a' <= c <= 'z' || 'A' <= c <= 'Z'
  }

  predicate IsAsciiDigit(c: char) {
    '0' <= c <= '9'
  }

  datatype CharClass = WhitespaceChar | IdentifierChar | DigitChar

  predicate InClass(c: char, k: CharClass) {
    match k
    case WhitespaceChar => IsWhitespace(c)
    case IdentifierChar => IsIdentifierChar(c)
    case DigitChar => IsAsciiDigit(c)
  }

  /** The end of the run of class `k` that starts at index `i` of `s`: what
      `s[i..].iter().take_while(..).count()` adds to `i`. */
  function RunEnd(s: seq<char>, i: nat, k: CharClass): (j: nat)
    requires i <= |s|
    ensures i <= j <= |s|
    ensures i < |s| && InClass(s[i], k) ==> i < j
    decreases |s| - i
  {
    if i == |s| || !InClass(s[i], k) then i else RunEnd(s, i + 1, k)
  }

  /** The run is the longest one: every character in it is of class `k`,
      and the one after it is not. */
  lemma {:induction false} RunEndSpec(s: seq<char>, i: nat, k: CharClass)
    requires i <= |s|
    ensures forall m :: i <= m < RunEnd(s, i, k) ==> InClass(s[m], k)
    ensures RunEnd(s, i, k) < |s| ==> !InClass(s[RunEnd(s, i, k)], k)
    decreases |s| - i
  {
    if i < |s| && InClass(s[i], k) {
      RunEndSpec(s, i + 1, k);
    }
  }

  /** `find_identifier_end`: the length of the identifier run at the front. */
  function FindIdentifierEnd(chs: seq<char>): (n: nat)
    ensures n <= |chs|
    ensures forall j :: 0 <= j < n ==> IsIdentifierChar(chs[j])
    ensures n < |chs| ==> !IsIdentifierChar(chs[n])
  {
    RunEndSpec(chs, 0, IdentifierChar);
    RunEnd(chs, 0, IdentifierChar)
  }

  /** The type of a one-character operator or delimiter, if `c` is one. */
  function SingleCharToken(c: char): Option<TokenType> {
    match c
    case '=' => Some(Assign)
    case '+' => Some(Plus)
    case '-' => Some(Minus)
    case '!' => Some(Bang)
    case '/' => Some(Slash)
    case '*' => Some(Asterisk)
    case '<' => Some(Lt)
    case '>' => Some(Gt)
    case ';' => Some(Semicolon)
    case ',' => Some(Comma)
    case '(' => Some(LParen)
    case ')' => Some(RParen)
    case '{' => Some(LBrace)
    case '}' => Some(RBrace)
    case _ => None
  }

  predicate AllIdentifierChars(s: seq<char>) {
    forall j :: 0 <= j < |s| ==> IsIdentifierChar(s[j])
  }

  predicate AllDigits(s: seq<char>) {
    forall j :: 0 <= j < |s| ==> IsAsciiDigit(s[j])
  }

  /** The token grammar, as a reference for the cutter: the type of the
      token whose text is exactly `s`, or None when `s` is no token. A
      single character that starts no other token is Illegal. */
  function LexemeType(s: seq<char>): Option<TokenType> {
    if s == "==" then Some(Eq)
    else if s == "!=" then Some(NotEq)
    else if |s| == 1 && SingleCharToken(s[0]).Some? then SingleCharToken(s[0])
    else if |s| > 0 && AllIdentifierChars(s) then Some(FromIdentifier(s))
    else if |s| > 0 && AllDigits(s) then Some(Int)
    else if |s| == 1 then Some(Illegal)
    else None
  }

  /** The cut for a character that does not start an identifier: the
      operators, delimiters and numbers, given whether the next character is
      '=' and the length of the digit run. */
  function CutOther(c: char, nextIsEq: bool, digitLen: nat): (TokenType, nat) {
    if c == '=' then (if nextIsEq then (Eq, 2) else (Assign, 1))
    else if c == '!' then (if nextIsEq then (NotEq, 2) else (Bang, 1))
    else if SingleCharToken(c).Some? then (SingleCharToken(c).value, 1)
    else if IsAsciiDigit(c) then (Int, digitLen)
    else (Illegal, 1)
  }

  /** The `match` of `next_token`: the type and length of the token that
      starts at `p`. End of input after '=' or '!' counts as "not '='". */
  function Classify(input: seq<char>, p: nat): (r: (TokenType, nat))
    requires p < |input|
    ensures 1 <= r.1 <= |input| - p
  {
    if IsIdentifierChar(input[p]) then
      var e := RunEnd(input, p, IdentifierChar);
      (FromIdentifier(input[p..e]), e - p)
    else
      CutOther(input[p], p + 1 < |input| && input[p + 1] == '=', RunEnd(input, p, DigitChar) - p)
  }

  /** The identifier run measured on the slice, as `next_token` calls
      `find_identifier_end`, ends where the run measured in place does. */
  lemma FindIdentifierEndInPlace(input: seq<char>, p: nat)
    requires p <= |input|
    ensures p + FindIdentifierEnd(input[p..]) == RunEnd(input, p, IdentifierChar)
  {
    var sl := input[p..];
    var n, e := FindIdentifierEnd(sl), RunEnd(input, p, IdentifierChar);
    RunEndSpec(input, p, IdentifierChar);
    forall j | 0 <= j < e - p ensures IsIdentifierChar(sl[j]) {
      assert sl[j] == input[p + j];
      assert InClass(input[p + j], IdentifierChar);
    }
    assert p + n < |input| ==> input[p + n] == sl[n];
  }

  /** The cut token is a token of the grammar, of the type reported. */
  lemma ClassifySound(input: seq<char>, p: nat)
    requires p < |input|
    ensures var (t, len) := Classify(input, p); LexemeType(input[p..p + len]) == Some(t)
  {
    if IsIdentifierChar(input[p]) {
      IdentifierSound(input, p);
    } else if IsAsciiDigit(input[p]) {
      NumberSound(input, p);
    } else {
      var (t, len) := Classify(input, p);
      assert input[p..p + 1] == [input[p]];
      assert len == 2 ==> input[p..p + len] == [input[p], input[p + 1]];
    }
  }

  lemma IdentifierSound(input: seq<char>, p: nat)
    requires p < |input| && IsIdentifierChar(input[p])
    ensures var (t, len) := Classify(input, p); LexemeType(input[p..p + len]) == Some(t)
  {
    var e := RunEnd(input, p, IdentifierChar);
    var s := input[p..e];
    RunEndSpec(input, p, IdentifierChar);
    assert AllIdentifierChars(s) by {
      forall j | 0 <= j < |s| ensures IsIdentifierChar(s[j]) {
        assert s[j] == input[p + j];
        assert InClass(input[p + j], IdentifierChar);
      }
    }
  }

  lemma NumberSound(input: seq<char>, p: nat)
    requires p < |input| && !IsIdentifierChar(input[p]) && IsAsciiDigit(input[p])
    ensures var (t, len) := Classify(input, p); LexemeType(input[p..p + len]) == Some(t)
  {
    var e := RunEnd(input, p, DigitChar);
    var s := input[p..e];
    RunEndSpec(input, p, DigitChar);
    assert AllDigits(s) by {
      forall j | 0 <= j < |s| ensures IsAsciiDigit(s[j]) {
        assert s[j] == input[p + j];
        assert InClass(input[p + j], DigitChar);
      }
    }
  }

  /** Maximal munch: no longer text starting at `p` is a token. */
  lemma ClassifyLongest(input: seq<char>, p: nat, k: nat)
    requires p < |input| && p + Classify(input, p).1 < k <= |input|
    ensures LexemeType(input[p..k]).None?
  {
    var (t, len) := Classify(input, p);
    var s := input[p..k];
    RunEndSpec(input, p, IdentifierChar);
    RunEndSpec(input, p, DigitChar);
    assert s[0] == input[p] && s[1] == input[p + 1];
    if IsIdentifierChar(input[p]) {
      assert s[len] == input[p + len];
      assert !InClass(input[p + len], IdentifierChar);
      assert !AllIdentifierChars(s);
      assert !AllDigits(s);
    } else if IsAsciiDigit(input[p]) {
      assert s[len] == input[p + len];
      assert !InClass(input[p + len], DigitChar);
      assert !AllDigits(s);
      assert !AllIdentifierChars(s);
    } else {
      assert !AllIdentifierChars(s) && !AllDigits(s);
      if len == 2 {
        assert |s| >= 3;
      }
    }
  }

  /** '=' followed by '=' is Eq of length 2, otherwise Assign of length 1;
      '!' gives NotEq or Bang the same way. */
  lemma ClassifyTwoCharOperators(input: seq<char>, p: nat)
    requires p < |input| && (input[p] == '=' || input[p] == '!')
    ensures Classify(input, p).1 == 2 <==> p + 1 < |input| && input[p + 1] == '='
    ensures input[p] == '=' ==> Classify(input, p).0 == (if Classify(input, p).1 == 2 then Eq else Assign)
    ensures input[p] == '!' ==> Classify(input, p).0 == (if Classify(input, p).1 == 2 then NotEq else Bang)
  {
  }

  /** An identifier start yields the whole identifier run, typed by the
      keyword lookup; a digit start yields the whole digit run as Int. */
  lemma ClassifyRuns(input: seq<char>, p: nat)
    requires p < |input| && (IsIdentifierChar(input[p]) || IsAsciiDigit(input[p]))
    ensures var (t, len) := Classify(input, p);
      if IsIdentifierChar(input[p]) then
        && len == FindIdentifierEnd(input[p..])
        && t == FromIdentifier(input[p..p + len])
      else
        && (forall j :: p <= j < p + len ==> IsAsciiDigit(input[j]))
        && (p + len < |input| ==> !IsAsciiDigit(input[p + len]))
        && t == Int
  {
    if IsIdentifierChar(input[p]) {
      FindIdentifierEndInPlace(input, p);
    } else {
      RunEndSpec(input, p, DigitChar);
      var e := RunEnd(input, p, DigitChar);
      assert forall j :: p <= j < e ==> InClass(input[j], DigitChar);
    }
  }

  /** Any character that starts no operator, identifier or number is one
      Illegal character. */
  lemma ClassifyIllegal(input: seq<char>, p: nat)
    requires p < |input|
    requires SingleCharToken(input[p]).None? && !IsIdentifierChar(input[p]) && !IsAsciiDigit(input[p])
    ensures Classify(input, p) == (Illegal, 1)
  {
  }

  /** What one `next_token` call returns from cursor position `pos`. */
  function NextTokenAt(input: seq<char>, pos: nat): (r: Option<Token>)
    requires pos <= |input|
    ensures r.Some? ==> pos <= r.value.literal.start && 1 <= r.value.literal.len
                        && r.value.literal.start + r.value.literal.len <= |input|
  {
    var start := RunEnd(input, pos, WhitespaceChar);
    if start >= |input| then None
    else
      var (t, len) := Classify(input, start);
      Some(Token(t, Slice(start, len)))
  }

  /** `next_token` returns None exactly when only whitespace remains;
      otherwise its token starts at the first non-whitespace character and
      is the one cut there. */
  lemma NextTokenAtSpec(input: seq<char>, pos: nat)
    requires pos <= |input|
    ensures var r := NextTokenAt(input, pos);
      && (r.None? <==> forall j :: pos <= j < |input| ==> IsWhitespace(input[j]))
      && (r.Some? ==>
            var start, len := r.value.literal.start, r.value.literal.len;
            && (forall j :: pos <= j < start ==> IsWhitespace(input[j]))
            && !IsWhitespace(input[start])
            && (r.value.tokType, len) == Classify(input, start))
  {
    RunEndSpec(input, pos, WhitespaceChar);
    var start := RunEnd(input, pos, WhitespaceChar);
    assert forall j :: pos <= j < start ==> InClass(input[j], WhitespaceChar);
  }

  /** The tokens that repeated `next_token` calls return from `pos` until
      the first None. */
  function LexFrom(input: seq<char>, pos: nat): seq<Token>
    requires pos <= |input|
    decreases |input| - pos
  {
    match NextTokenAt(input, pos)
    case None => []
    case Some(tok) => [tok] + LexFrom(input, tok.literal.start + tok.literal.len)
  }

  function Lex(input: seq<char>): seq<Token> {
    LexFrom(input, 0)
  }

  predicate InBounds(toks: seq<Token>, n: nat) {
    forall i :: 0 <= i < |toks| ==> toks[i].literal.start + toks[i].literal.len <= n
  }

  lemma {:induction false} LexFromInBounds(input: seq<char>, pos: nat)
    requires pos <= |input|
    ensures InBounds(LexFrom(input, pos), |input|)
    decreases |input| - pos
  {
    var r := NextTokenAt(input, pos);
    if r.Some? {
      LexFromInBounds(input, r.value.literal.start + r.value.literal.len);
    }
  }

  /** Each token as its type and its text, as the unit tests compare them. */
  function Texts(toks: seq<Token>, input: seq<char>): (r: seq<(TokenType, seq<char>)>)
    requires InBounds(toks, |input|)
    ensures |r| == |toks|
  {
    seq(|toks|, i requires 0 <= i < |toks| => (toks[i].tokType, toks[i].literal.AsSlice(input)))
  }

  /** The (type, text) pairs that repeated `next_token` calls return from `pos`. */
  function LexemesFrom(input: seq<char>, pos: nat): seq<(TokenType, seq<char>)>
    requires pos <= |input|
  {
    LexFromInBounds(input, pos);
    Texts(LexFrom(input, pos), input)
  }

  function Lexemes(input: seq<char>): seq<(TokenType, seq<char>)> {
    LexemesFrom(input, 0)
  }

  // ---------------------------------------------------------------------
  // A text that ends where no token can continue lexes the same whatever
  // follows it.

  /** A character after which no token continues: not part of an
      identifier or a number, and not the '=' or '!' that may start `==`
      or `!=`. */
  predicate ClosesToken(c: char) {
    !IsIdentifierChar(c) && !IsAsciiDigit(c) && c != '=' && c != '!'
  }

  lemma {:induction false} RunEndPrefix(a: seq<char>, b: seq<char>, i: nat, k: CharClass)
    requires i <= |a|
    ensures RunEnd(a, i, k) < |a| ==> RunEnd(a + b, i, k) == RunEnd(a, i, k)
    ensures RunEnd(a, i, k) == |a| ==> RunEnd(a + b, i, k) == RunEnd(a + b, |a|, k)
    decreases |a| - i
  {
    if i < |a| {
      assert (a + b)[i] == a[i];
      if InClass(a[i], k) {
        RunEndPrefix(a, b, i + 1, k);
      }
    }
  }

  lemma ClassifyPrefix(a: seq<char>, b: seq<char>, st: nat)
    requires st < |a| && ClosesToken(a[|a| - 1])
    ensures Classify(a + b, st) == Classify(a, st)
  {
    var ab := a + b;
    assert ab[st] == a[st];
    assert st + 1 < |a| ==> ab[st + 1] == a[st + 1];
    assert !InClass(a[|a| - 1], IdentifierChar) && !InClass(a[|a| - 1], DigitChar);
    RunEndSpec(a, st, IdentifierChar);
    RunEndSpec(a, st, DigitChar);
    RunEndPrefix(a, b, st, IdentifierChar);
    RunEndPrefix(a, b, st, DigitChar);
    var e := RunEnd(a, st, IdentifierChar);
    assert ab[st..e] == a[st..e];
  }

  lemma NextTokenAtPrefix(a: seq<char>, b: seq<char>, pos: nat)
    requires pos <= |a| && (a == [] || ClosesToken(a[|a| - 1]))
    ensures NextTokenAt(a, pos).Some? ==> NextTokenAt(a + b, pos) == NextTokenAt(a, pos)
    ensures NextTokenAt(a, pos).None? ==> NextTokenAt(a + b, pos) == NextTokenAt(a + b, |a|)
  {
    RunEndPrefix(a, b, pos, WhitespaceChar);
    var st := RunEnd(a, pos, WhitespaceChar);
    if st < |a| {
      ClassifyPrefix(a, b, st);
    }
  }

  lemma AppendAssoc<T>(x: seq<T>, y: seq<T>, z: seq<T>)
    ensures x + (y + z) == (x + y) + z
  {
  }

  /** Appending text after a character that closes every token leaves the
      tokens before it unchanged: they come first, then whatever `b` and
      the join produce from `|a|` on. */
  lemma {:induction false} LexFromAppend(a: seq<char>, b: seq<char>, pos: nat)
    requires pos <= |a| && (a == [] || ClosesToken(a[|a| - 1]))
    ensures LexFrom(a + b, pos) == LexFrom(a, pos) + LexFrom(a + b, |a|)
    decreases |a| - pos
  {
    var r := NextTokenAt(a, pos);
    if r.Some? {
      var tok := r.value;
      var next := tok.literal.start + tok.literal.len;
      LexFromAppendStep(a, b, pos);
      LexFromAppend(a, b, next);
      AppendAssoc([tok], LexFrom(a, next), LexFrom(a + b, |a|));
    } else {
      NextTokenAtPrefix(a, b, pos);
    }
  }

  /** The step of `LexFromAppend`: the same token first in both texts,
      then the tokens from just past it. */
  lemma LexFromAppendStep(a: seq<char>, b: seq<char>, pos: nat)
    requires pos <= |a| && (a == [] || ClosesToken(a[|a| - 1])) && NextTokenAt(a, pos).Some?
    ensures var tok := NextTokenAt(a, pos).value;
      var next := tok.literal.start + tok.literal.len;
      && pos < next <= |a|
      && LexFrom(a, pos) == [tok] + LexFrom(a, next)
      && LexFrom(a + b, pos) == [tok] + LexFrom(a + b, next)
  {
    NextTokenAtPrefix(a, b, pos);
  }

  /** `Lexer`: the program text and the cursor. The source's `read_position`
      and `current_ch` fields are never read and are not modelled. */
  class Lexer {
    const program: seq<char>
    var position: nat

    ghost predicate Valid()
      reads this
    {
      position <= |program|
    }

    constructor (program: seq<char>)
      ensures this.program == program && position == 0 && Valid()
    {
      this.program := program;
      position := 0;
    }

    /** `eat_whitespace`: moves the cursor past the whitespace run. */
    method EatWhitespace()
      requires Valid()
      modifies this
      ensures Valid()
      ensures position == RunEnd(program, old(position), WhitespaceChar)
    {
      position := RunEnd(program, position, WhitespaceChar);
    }

    /** `next_token`: the next token, and the cursor just past it; None, with
        the cursor at the end, once only whitespace remains. */
    method NextToken() returns (tok: Option<Token>)
      requires Valid()
      modifies this
      ensures Valid()
      ensures tok == NextTokenAt(program, old(position))
      ensures tok.None? ==> position == |program|
      ensures tok.Some? ==> position == tok.value.literal.start + tok.value.literal.len
      ensures LexFrom(program, old(position)) == (if tok.None? then [] else [tok.value] + LexFrom(program, position))
    {
      EatWhitespace();
      if position >= |program| {
        return None;
      }
      var (t, len) := Classify(program, position);
      var p := position;
      position := position + len;
      tok := Some(Token(t, Slice(p, len)));
    }
  }

  // ---------------------------------------------------------------------
  // The lookahead as written: `input[position + 1]` is read without a
  // bounds check, which panics when '=' or '!' is the last character.

  /** The `match` of `next_token` as written; None stands for the panic. */
  function ClassifyAsWritten(input: seq<char>, p: nat): Option<(TokenType, nat)>
    requires p < |input|
  {
    if (input[p] == '=' || input[p] == '!') && p + 1 >= |input| then None
    else Some(Classify(input, p))
  }

  /** The written code panics exactly on a trailing '=' or '!'; everywhere
      else it agrees with the checked lookahead. */
  lemma AsWrittenPanicsOnTrailingOperator(input: seq<char>, p: nat)
    requires p < |input|
    ensures ClassifyAsWritten(input, p).None? <==> (input[p] == '=' || input[p] == '!') && p + 1 == |input|
    ensures ClassifyAsWritten(input, p).Some? ==> ClassifyAsWritten(input, p).value == Classify(input, p)
  {
  }

  lemma {:induction false} RunEndOver(s: seq<char>, i: nat, j: nat, k: CharClass)
    requires i <= j <= |s|
    requires forall m :: i <= m < j ==> InClass(s[m], k)
    requires j == |s| || !InClass(s[j], k)
    ensures RunEnd(s, i, k) == j
    decreases j - i
  {
    if i < j {
      RunEndOver(s, i + 1, j, k);
    }
  }

  /** Completeness of the cutter against the grammar: a token text that is
      followed by the end of input or by a character that closes every
      token is cut whole, with its grammar type. */
  lemma ClassifyComplete(input: seq<char>, p: nat, w: seq<char>)
    requires p + |w| <= |input| && input[p..p + |w|] == w
    requires LexemeType(w).Some? && |w| > 0 && !IsWhitespace(w[0])
    requires p + |w| == |input| || ClosesToken(input[p + |w|])
    ensures Classify(input, p) == (LexemeType(w).value, |w|)
  {
    var e := p + |w|;
    assert input[p] == w[0];
    assert |w| > 1 ==> input[p + 1] == w[1];
    if AllIdentifierChars(w) {
      forall m | p <= m < e ensures InClass(input[m], IdentifierChar) {
        assert input[m] == w[m - p];
      }
      RunEndOver(input, p, e, IdentifierChar);
    } else if AllDigits(w) {
      forall m | p <= m < e ensures InClass(input[m], DigitChar) {
        assert input[m] == w[m - p];
      }
      RunEndOver(input, p, e, DigitChar);
    }
  }

  /** A token cut at a non-whitespace position heads the list. */
  lemma LexToken(input: seq<char>, pos: nat, t: TokenType, text: seq<char>, rest: seq<(TokenType, seq<char>)>)
    requires pos < |input| && pos + |text| <= |input| && !IsWhitespace(input[pos])
    requires Classify(input, pos) == (t, |text|) && input[pos..pos + |text|] == text
    requires LexemesFrom(input, pos + |text|) == rest
    ensures LexemesFrom(input, pos) == [(t, text)] + rest
  {
    assert RunEnd(input, pos, WhitespaceChar) == pos;
    var tok := Token(t, Slice(pos, |text|));
    var toks := LexFrom(input, pos + |text|);
    assert LexFrom(input, pos) == [tok] + toks;
    LexFromInBounds(input, pos + |text|);
    TextsCons(tok, toks, input);
  }

  lemma TextsCons(tok: Token, toks: seq<Token>, input: seq<char>)
    requires tok.literal.start + tok.literal.len <= |input| && InBounds(toks, |input|)
    ensures InBounds([tok] + toks, |input|)
    ensures Texts([tok] + toks, input) == [(tok.tokType, tok.literal.AsSlice(input))] + Texts(toks, input)
  {
    var all := [tok] + toks;
    assert forall i :: 1 <= i < |all| ==> all[i] == toks[i - 1];
    var l, r := Texts(all, input), [(tok.tokType, tok.literal.AsSlice(input))] + Texts(toks, input);
    assert forall i :: 0 <= i < |l| ==> l[i] == r[i];
  }

  /** A whitespace character contributes nothing to the list. */
  lemma LexBlank(input: seq<char>, pos: nat, rest: seq<(TokenType, seq<char>)>)
    requires pos < |input| && IsWhitespace(input[pos])
    requires LexemesFrom(input, pos + 1) == rest
    ensures LexemesFrom(input, pos) == rest
  {
    assert RunEnd(input, pos, WhitespaceChar) == RunEnd(input, pos + 1, WhitespaceChar);
    assert NextTokenAt(input, pos) == NextTokenAt(input, pos + 1);
  }

  lemma LexEnd(input: seq<char>)
    ensures LexemesFrom(input, |input|) == []
  {
  }

  /** A program ending in '=' panics as written; with the checked lookahead
      it lexes to an identifier and an Assign. */
  lemma TrailingAssign()
    ensures ClassifyAsWritten("x =", 2).None?
    ensures Lexemes("x =") == [(Identifier, "x"), (Assign, "=")]
  {
    var s := "x =";
    LexEnd(s);
    ghost var rest: seq<(TokenType, seq<char>)> := [];
    LexToken(s, 2, Assign, "=", rest);
    rest := [(Assign, "=")] + rest;
    LexBlank(s, 1, rest);
    LexToken(s, 0, Identifier, "x", rest);
    rest := [(Identifier, "x")] + rest;
  }

  // ---------------------------------------------------------------------
  // The unit tests of lexer.rs.

  /** One operator or delimiter character, not the start of `==` or `!=`,
      is one token. */
  lemma LexPunct(input: seq<char>, pos: nat, rest: seq<(TokenType, seq<char>)>)
    requires pos < |input| && SingleCharToken(input[pos]).Some?
    requires input[pos] == '=' || input[pos] == '!' ==> pos + 1 == |input| || input[pos + 1] != '='
    requires LexemesFrom(input, pos + 1) == rest
    ensures LexemesFrom(input, pos) == [(SingleCharToken(input[pos]).value, [input[pos]])] + rest
  {
    var c := input[pos];
    assert !IsWhitespace(c) && !IsIdentifierChar(c) && !IsAsciiDigit(c);
    assert input[pos..pos + 1] == [c];
    LexToken(input, pos, SingleCharToken(c).value, [c], rest);
  }

  /** Position `i` holds an operator or delimiter that is a token on its own. */
  predicate PunctAt(s: seq<char>, i: nat)
    requires i < |s|
  {
    SingleCharToken(s[i]).Some? && (s[i] == '=' || s[i] == '!' ==> i + 1 == |s| || s[i + 1] != '=')
  }

  /** One single-character token per character from `pos` on. */
  function PunctLexemes(s: seq<char>, pos: nat): (r: seq<(TokenType, seq<char>)>)
    requires pos <= |s| && forall i :: pos <= i < |s| ==> PunctAt(s, i)
    ensures |r| == |s| - pos
    ensures forall k :: 0 <= k < |r| ==> SingleCharToken(s[pos + k]) == Some(r[k].0) && r[k].1 == [s[pos + k]]
    decreases |s| - pos
  {
    if pos == |s| then []
    else
      assert PunctAt(s, pos);
      [(SingleCharToken(s[pos]).value, [s[pos]])] + PunctLexemes(s, pos + 1)
  }

  /** A run of operators and delimiters, none starting `==` or `!=`, lexes
      to one token per character. */
  lemma {:induction false} LexPunctRun(s: seq<char>, pos: nat)
    requires pos <= |s| && forall i :: pos <= i < |s| ==> PunctAt(s, i)
    ensures LexemesFrom(s, pos) == PunctLexemes(s, pos)
    decreases |s| - pos
  {
    if pos == |s| {
      LexEnd(s);
    } else {
      LexPunctRun(s, pos + 1);
      assert PunctAt(s, pos);
      LexPunct(s, pos, PunctLexemes(s, pos + 1));
    }
  }

  /** `test_next_token_basics`: the eight one-character tokens in order,
      then None (the test's Eof entry). */
  lemma LexBasics(s: seq<char>)
    requires s == "=+(){},;"
    ensures Lexemes(s) == [(Assign, "="), (Plus, "+"), (LParen, "("), (RParen, ")"), (LBrace, "{"), (RBrace, "}"), (Comma, ","), (Semicolon, ";")]
  {
    assert |s| == 8 && s[0] == '=' && s[1] == '+' && s[2] == '(' && s[3] == ')';
    assert s[4] == '{' && s[5] == '}' && s[6] == ',' && s[7] == ';';
    forall i | 0 <= i < |s| ensures PunctAt(s, i) {
      assert i < 8;
    }
    LexPunctRun(s, 0);
    BasicsTokens(s);
  }

  lemma BasicsTokens(s: seq<char>)
    requires |s| == 8 && s[0] == '=' && s[1] == '+' && s[2] == '(' && s[3] == ')'
    requires s[4] == '{' && s[5] == '}' && s[6] == ',' && s[7] == ';'
    requires forall i :: 0 <= i < |s| ==> PunctAt(s, i)
    ensures PunctLexemes(s, 0) == [(Assign, "="), (Plus, "+"), (LParen, "("), (RParen, ")"), (LBrace, "{"), (RBrace, "}"), (Comma, ","), (Semicolon, ";")]
  {
    var r := PunctLexemes(s, 0);
    assert r[0] == (Assign, "=") by { assert SingleCharToken(s[0]) == Some(r[0].0) && r[0].1 == [s[0]]; }
    assert r[1] == (Plus, "+") by { assert SingleCharToken(s[1]) == Some(r[1].0) && r[1].1 == [s[1]]; }
    assert r[2] == (LParen, "(") by { assert SingleCharToken(s[2]) == Some(r[2].0) && r[2].1 == [s[2]]; }
    assert r[3] == (RParen, ")") by { assert SingleCharToken(s[3]) == Some(r[3].0) && r[3].1 == [s[3]]; }
    assert r[4] == (LBrace, "{") by { assert SingleCharToken(s[4]) == Some(r[4].0) && r[4].1 == [s[4]]; }
    assert r[5] == (RBrace, "}") by { assert SingleCharToken(s[5]) == Some(r[5].0) && r[5].1 == [s[5]]; }
    assert r[6] == (Comma, ",") by { assert SingleCharToken(s[6]) == Some(r[6].0) && r[6].1 == [s[6]]; }
    assert r[7] == (Semicolon, ";") by { assert SingleCharToken(s[7]) == Some(r[7].0) && r[7].1 == [s[7]]; }
  }
}
