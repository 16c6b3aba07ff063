/** Token types, source slices and tokens of the Monkey interpreter
    (rust/monkey_interpreter/src/token.rs). */
module MonkeyToken {

  datatype TokenType =
    | Illegal
    | Eof
      // identifiers and literals
    | Identifier
    | Int
      // operators
    | Bang
    | Assign
    | Plus
    | Minus
    | Slash
    | Asterisk
    | Lt
    | Gt
    | Eq
    | NotEq
      // delimiters
    | Comma
    | Semicolon
    | LParen
    | RParen
    | LBrace
    | RBrace
      // keywords
    | Function
    | Let
    | If
    | Else
    | Return
    | True
    | False

  predicate IsKeyword(t: TokenType) {
    t.Function? || t.Let? || t.If? || t.Else? || t.Return? || t.True? || t.False?
  }

  /** The spelling of each keyword: the reference the keyword lookup is
      checked against. */
  function KeywordText(t: TokenType): seq<char>
    requires IsKeyword(t)
  {
    match t
    case Function => "fn"
    case Let => "let"
    case If => "if"
    case Else => "else"
    case Return => "return"
    case True => "true"
    case False => "false"
  }

  /** `TokenType::from_identifier`: a keyword's own type for its spelling,
      `Identifier` for every other string. */
  function FromIdentifier(raw: seq<char>): (t: TokenType)
    ensures t.Identifier? || IsKeyword(t)
    ensures IsKeyword(t) ==> KeywordText(t) == raw
  {
    match raw
    case "fn" => Function
    case "let" => Let
    case "if" => If
    case "else" => Else
    case "return" => Return
    case "true" => True
    case "false" => False
    case _ => Identifier
  }

  /** Each keyword's spelling maps back to that keyword. */
  lemma FromIdentifierKeywords(t: TokenType)
    requires IsKeyword(t)
    ensures FromIdentifier(KeywordText(t)) == t
  {
  }

  /** A string that spells no keyword is an Identifier. */
  lemma FromIdentifierOther(raw: seq<char>)
    requires forall t :: IsKeyword(t) ==> KeywordText(t) != raw
    ensures FromIdentifier(raw) == Identifier
  {
  }

  /** `Slice`: a start index and a length into the program text. */
  datatype Slice = Slice(start: nat, len: nat)
  {
    /** `Slice::as_slice`: the `len` elements of `data` from `start`; the
        source panics when they run past the end. */
    function AsSlice<T>(data: seq<T>): (r: seq<T>)
      requires start + len <= |data|
      ensures |r| == len
      ensures forall i :: 0 <= i < len ==> r[i] == data[start + i]
    {
      data[start..start + len]
    }
  }

  datatype Token = Token(tokType: TokenType, literal: Slice)
}
