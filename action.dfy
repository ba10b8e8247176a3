/** The `Action` field (`src/action.rs`): what the terminal did with the event. */
module ActionField {
  import opened Wrappers

  datatype Action =
    | Open
    | RefuseUnrecognizedFinger
    | RefuseTimeSlotA
    | RefuseTimeSlotB
    | RefuseDisabled
    | RefuseTimeRestricted
    | FingerScannerNotPaired
    | DigitalInput
    | OneMinuteCodePadLock
    | FifteenMinuteCodePadLock

  /** The wire code of each variant (encoder side, for specification only). */
  function Code(a: Action): char {
    match a
    case Open => '1'
    case RefuseUnrecognizedFinger => '2'
    case RefuseTimeSlotA => '3'
    case RefuseTimeSlotB => '4'
    case RefuseDisabled => '5'
    case RefuseTimeRestricted => '6'
    case FingerScannerNotPaired => '7'
    case DigitalInput => '8'
    case OneMinuteCodePadLock => 'A'
    case FifteenMinuteCodePadLock => 'B'
  }

  /** The ten codes the decoder recognises; there is no sentinel for "absent". */
  predicate IsCode(c: char) {
    c in "12345678AB"
  }

  /** `Action::nom`: one code character looked up in the table; anything else, the empty
      input included, fails. */
  function Nom(input: seq<char>): (r: Result<Action>)
    ensures r.Success? <==> |input| > 0 && IsCode(input[0])
    ensures r.Success? ==> input == [Code(r.value)] + r.rest
  {
    if |input| == 0 then Failure
    else
      var rest := input[1..];
      match input[0]
      case '1' => Success(rest, Open)
      case '2' => Success(rest, RefuseUnrecognizedFinger)
      case '3' => Success(rest, RefuseTimeSlotA)
      case '4' => Success(rest, RefuseTimeSlotB)
      case '5' => Success(rest, RefuseDisabled)
      case '6' => Success(rest, RefuseTimeRestricted)
      case '7' => Success(rest, FingerScannerNotPaired)
      case '8' => Success(rest, DigitalInput)
      case 'A' => Success(rest, OneMinuteCodePadLock)
      case 'B' => Success(rest, FifteenMinuteCodePadLock)
      case _ => Failure
  }

  /** Decoding a variant's code gives that variant back and consumes only the code. */
  lemma NomCode(a: Action, rest: seq<char>)
    ensures Nom([Code(a)] + rest) == Success(rest, a)
  {
    assert ([Code(a)] + rest)[1..] == rest;
  }

  /** The code table is one-to-one, so it is a bijection between the ten codes and the
      ten variants. */
  lemma CodeInjective(a: Action, b: Action)
    ensures Code(a) == Code(b) ==> a == b
  {
  }

  /** The `Display` labels. */
  function Display(a: Action): string {
    match a
    case Open => "open"
    case RefuseUnrecognizedFinger => "refuse unrecognized finger"
    case RefuseTimeSlotA => "refuse time slot A user"
    case RefuseTimeSlotB => "refuse time slot B user"
    case RefuseDisabled => "refuse disabled user"
    case RefuseTimeRestricted => "refuse time-restricted user"
    case FingerScannerNotPaired => "finger scanner not paired"
    case DigitalInput => "digital input"
    case OneMinuteCodePadLock => "one minute code pad lock"
    case FifteenMinuteCodePadLock => "fifteen minute code pad lock"
  }

  /** No two variants share a label. */
  lemma DisplayInjective(a: Action, b: Action)
    ensures Display(a) == Display(b) ==> a == b
  {
  }
}
