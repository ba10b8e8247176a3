/** The `Finger` field (`src/finger.rs`): which finger, or the RFID reader, raised the
    event; optional, with `'-'` for "absent". */
module FingerField {
  import opened Wrappers

  datatype Finger =
    | LeftLittle
    | LeftRing
    | LeftMiddle
    | LeftIndex
    | LeftThumb
    | RightThumb
    | RightIndex
    | RightMiddle
    | RightRing
    | RightLittle
    | Rfid

  /** The wire code of each optional value, `'-'` for absent (encoder side, for
      specification only). */
  function Code(f: Option<Finger>): char {
    match f
    case None => '-'
    case Some(LeftLittle) => '1'
    case Some(LeftRing) => '2'
    case Some(LeftMiddle) => '3'
    case Some(LeftIndex) => '4'
    case Some(LeftThumb) => '5'
    case Some(RightThumb) => '6'
    case Some(RightIndex) => '7'
    case Some(RightMiddle) => '8'
    case Some(RightRing) => '9'
    case Some(RightLittle) => '0'
    case Some(Rfid) => 'R'
  }

  /** The eleven finger codes and the sentinel. */
  predicate IsCode(c: char) {
    c in "1234567890R-"
  }

  /** `Finger::nom`: one code character looked up in the table, `'-'` giving `None`;
      anything else, the empty input included, fails. */
  function Nom(input: seq<char>): (r: Result<Option<Finger>>)
    ensures r.Success? <==> |input| > 0 && IsCode(input[0])
    ensures r.Success? ==> input == [Code(r.value)] + r.rest
  {
    if |input| == 0 then Failure
    else
      var rest := input[1..];
      match input[0]
      case '1' => Success(rest, Some(LeftLittle))
      case '2' => Success(rest, Some(LeftRing))
      case '3' => Success(rest, Some(LeftMiddle))
      case '4' => Success(rest, Some(LeftIndex))
      case '5' => Success(rest, Some(LeftThumb))
      case '6' => Success(rest, Some(RightThumb))
      case '7' => Success(rest, Some(RightIndex))
      case '8' => Success(rest, Some(RightMiddle))
      case '9' => Success(rest, Some(RightRing))
      case '0' => Success(rest, Some(RightLittle))
      case 'R' => Success(rest, Some(Rfid))
      case '-' => Success(rest, None)
      case _ => Failure
  }

  /** Decoding the code of an optional finger gives it back and consumes only the code. */
  lemma NomCode(f: Option<Finger>, rest: seq<char>)
    ensures Nom([Code(f)] + rest) == Success(rest, f)
  {
    assert ([Code(f)] + rest)[1..] == rest;
  }

  /** The code table, sentinel included, is one-to-one. */
  lemma CodeInjective(f: Option<Finger>, g: Option<Finger>)
    ensures Code(f) == Code(g) ==> f == g
  {
  }

  /** The `Display` labels, as written: the labels of `LeftLittle` and `LeftRing` are
      each other's. */
  function Display(f: Finger): string {
    match f
    case LeftRing => "left little finger"
    case LeftLittle => "left ring finger"
    case LeftMiddle => "left middle finger"
    case LeftIndex => "left index finger"
    case LeftThumb => "left thumb"
    case RightThumb => "right thumb"
    case RightIndex => "right index finger"
    case RightMiddle => "right middle finger"
    case RightRing => "right ring finger"
    case RightLittle => "right little finger"
    case Rfid => "RFID"
  }

  /** No two variants share a label, although two of them carry each other's. */
  lemma DisplayInjective(f: Finger, g: Finger)
    ensures Display(f) == Display(g) ==> f == g
    ensures Display(LeftLittle) == "left ring finger" && Display(LeftRing) == "left little finger"
  {
  }
}
