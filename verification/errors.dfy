/** The program's own error kinds and the runtime's error values they are reported as. */
module Errors {
  import opened Bytes
  import opened Results

  /** The custom error kinds, in declaration order. */
  datatype ElectionError =
    | InvalidInstruction
    | VoterAlreadyRegistered
    | VoterNotRegistered
    | InvalidCandidateIndex

  /** Why a Borsh read or write failed (the I/O error Borsh returns, by cause). */
  datatype IoCause =
    | UnexpectedLength   // the input ended before a declared field did
    | InvalidUtf8        // a string's bytes are not well-formed UTF-8
    | NotAllBytesRead    // a whole-buffer read left bytes over
    | WriteZero          // the output buffer is too small for the encoding
    | LengthOverflow     // a length does not fit the 32-bit length prefix

  /** The runtime's error values that this program can return. */
  datatype ProgramError =
    | Custom(code: u32)
    | InvalidInstructionData
    | NotEnoughAccountKeys
    | BorshIoError(cause: IoCause)

  /** How an instruction that does not complete ends: with a returned error, or with a panic. */
  datatype Fault = Error(error: ProgramError) | Panic

  /** The discriminant of an error kind: its position in the declaration. */
  function Discriminant(e: ElectionError): (d: u32)
    ensures d < 4
  {
    match e
    case InvalidInstruction => 0
    case VoterAlreadyRegistered => 1
    case VoterNotRegistered => 2
    case InvalidCandidateIndex => 3
  }

  /** The conversion used whenever an error kind is returned from the program. */
  function ToProgramError(e: ElectionError): (p: ProgramError)
    ensures p.Custom? && p.code == Discriminant(e)
  {
    Custom(Discriminant(e))
  }

  /** The error kind a numeric custom code stands for, if any. */
  function FromCode(code: u32): (r: Option<ElectionError>)
  {
    if code == 0 then Some(InvalidInstruction)
    else if code == 1 then Some(VoterAlreadyRegistered)
    else if code == 2 then Some(VoterNotRegistered)
    else if code == 3 then Some(InvalidCandidateIndex)
    else None
  }

  /** The codes are exactly 0..3 in declaration order. */
  lemma DiscriminantValues()
    ensures ToProgramError(InvalidInstruction) == Custom(0)
    ensures ToProgramError(VoterAlreadyRegistered) == Custom(1)
    ensures ToProgramError(VoterNotRegistered) == Custom(2)
    ensures ToProgramError(InvalidCandidateIndex) == Custom(3)
  {
  }

  /** A custom code identifies its error kind, and only codes 0..3 identify one. */
  lemma CodeRoundTrip(e: ElectionError, code: u32)
    ensures FromCode(Discriminant(e)) == Some(e)
    ensures FromCode(code).Some? <==> code < 4
    ensures FromCode(code) == Some(e) ==> Discriminant(e) == code
  {
  }

  /** Distinct error kinds are reported as distinct values, none of them a built-in error. */
  lemma {:induction false} ToProgramErrorInjective(a: ElectionError, b: ElectionError)
    ensures ToProgramError(a) == ToProgramError(b) ==> a == b
    ensures ToProgramError(a) != InvalidInstructionData
    ensures ToProgramError(a) != NotEnoughAccountKeys
    ensures forall c :: ToProgramError(a) != BorshIoError(c)
  {
    CodeRoundTrip(a, Discriminant(b));
  }
}
