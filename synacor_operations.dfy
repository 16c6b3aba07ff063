/** Decoding of Synacor VM instructions
    (synacor_challenge/src/synacorvm/operations.rs): the opcodes the VM
    knows so far are `halt` (0), `out a` (19) and `noop` (21); every
    operand is a literal below 32768. */
module SynacorOperations {
  import opened Common

  const HALT: u16 := 0
  const OUT: u16 := 19
  const NOOP: u16 := 21

  /** Operand values from 32768 on name registers, which the VM does not
      handle yet. */
  const LITERAL_LIMIT: u16 := 32768

  datatype Operand = Literal(value: u16)

  datatype Operation = Halt | Out(src: Operand) | Noop

  datatype UnknownOpcode = UnknownOpcode(code: u16)

  /** `Operand::from_raw`: a literal with the raw value; a value from
      32768 on panics ("operand value too high"). */
  function FromRaw(raw: u16): (r: Operand)
    requires raw < LITERAL_LIMIT
    ensures r.Literal? && r.value == raw && r.value < LITERAL_LIMIT
  {
    Literal(raw)
  }

  /** `instr_len`: how far the instruction pointer moves past the
      instruction; `halt` does not move it. */
  function InstrLen(op: Operation): nat
  {
    match op
    case Halt => 0
    case Noop => 1
    case Out(_) => 2
  }

  /** What `Operation::from` needs of `raw`: an opcode, and for `out` an
      operand word below 32768 after it. */
  predicate Decodable(raw: seq<u16>)
  {
    |raw| >= 1 && (raw[0] == OUT ==> |raw| >= 2 && raw[1] < LITERAL_LIMIT)
  }

  /** `Operation::from`: decodes the instruction at the start of `raw`;
      an opcode other than 0, 19 and 21 is an error carrying the code. */
  function From(raw: seq<u16>): Result<Operation, UnknownOpcode>
    requires Decodable(raw)
  {
    match raw[0]
    case 0 => Ok(Halt)
    case 19 => Ok(Out(FromRaw(raw[1])))
    case 21 => Ok(Noop)
    case code => Err(UnknownOpcode(code))
  }

  /** An operation whose operand is a literal. */
  predicate WellFormed(op: Operation)
  {
    op.Out? ==> op.src.value < LITERAL_LIMIT
  }

  /** The words an operation occupies in memory: its opcode, then its
      operand. */
  function Encode(op: Operation): (r: seq<u16>)
    ensures |r| >= 1
  {
    match op
    case Halt => [HALT]
    case Out(src) => [OUT, src.value]
    case Noop => [NOOP]
  }

  /** Decoding the words of an operation, whatever follows them, gives the
      operation back. */
  lemma DecodeEncode(op: Operation, rest: seq<u16>)
    requires WellFormed(op)
    ensures Decodable(Encode(op) + rest)
    ensures From(Encode(op) + rest) == Ok(op)
  {
  }

  /** A successful decode read exactly the words of the decoded operation
      from the front of `raw`. */
  lemma EncodeDecode(raw: seq<u16>)
    requires Decodable(raw) && From(raw).Ok?
    ensures WellFormed(From(raw).value)
    ensures |Encode(From(raw).value)| <= |raw|
    ensures raw[..|Encode(From(raw).value)|] == Encode(From(raw).value)
  {
  }

  /** Decoding fails exactly for an opcode outside 0, 19 and 21, and the
      error carries that opcode. */
  lemma UnknownExactly(raw: seq<u16>)
    requires Decodable(raw)
    ensures From(raw).Err? <==> raw[0] != HALT && raw[0] != OUT && raw[0] != NOOP
    ensures From(raw).Err? ==> From(raw).error.code == raw[0]
  {
  }

  /** `instr_len` of a `noop` or an `out` is the number of words the
      instruction occupies, so adding it to the instruction pointer steps
      to the next instruction; for `halt` it is 0 and the pointer stays. */
  lemma InstrLenSteps(op: Operation)
    ensures op.Halt? <==> InstrLen(op) == 0
    ensures !op.Halt? ==> InstrLen(op) == |Encode(op)|
  {
  }
}
