/** The "Home" event packet (`src/home.rs`): the relay enum and the 27-character grammar
    `1 S uuuu S f S ssssssssssssss S a S r`, where `S` is the packet's own separator. */
module HomePacket {
  import opened Wrappers
  import opened Nom
  import FingerField
  import ActionField

  datatype Relay = Relay1 | Relay2 | Relay3 | Relay4 | DoubleRelay

  /** The wire code of each optional relay, `'-'` for absent (encoder side, for
      specification only). */
  function RelayCode(r: Option<Relay>): char {
    match r
    case None => '-'
    case Some(Relay1) => '1'
    case Some(Relay2) => '2'
    case Some(Relay3) => '3'
    case Some(Relay4) => '4'
    case Some(DoubleRelay) => 'd'
  }

  predicate IsRelayCode(c: char) {
    c in "1234d-"
  }

  /** `Relay::nom`: `'1'`..`'4'`, lower-case `'d'` for the double relay, `'-'` for none. */
  function RelayNom(input: seq<char>): (r: Result<Option<Relay>>)
    ensures r.Success? <==> |input| > 0 && IsRelayCode(input[0])
    ensures r.Success? ==> input == [RelayCode(r.value)] + r.rest
  {
    if |input| == 0 then Failure
    else
      var rest := input[1..];
      match input[0]
      case '1' => Success(rest, Some(Relay1))
      case '2' => Success(rest, Some(Relay2))
      case '3' => Success(rest, Some(Relay3))
      case '4' => Success(rest, Some(Relay4))
      case 'd' => Success(rest, Some(DoubleRelay))
      case '-' => Success(rest, None)
      case _ => Failure
  }

  /** Decoding the code of an optional relay gives it back. */
  lemma RelayNomCode(r: Option<Relay>, rest: seq<char>)
    ensures RelayNom([RelayCode(r)] + rest) == Success(rest, r)
  {
    assert ([RelayCode(r)] + rest)[1..] == rest;
  }

  /** The decoded record; its fields are the read-only accessors `user_id`, `finger`,
      `finger_scanner_serial`, `action` and `relay`. */
  datatype Home = Home(
    userId: u16,
    finger: Option<FingerField.Finger>,
    fingerScannerSerial: u64,
    action: ActionField.Action,
    relay: Option<Relay>)

  /** The ranges a decoded record's numeric fields come from: 4 and 14 decimal digits. */
  predicate InRange(h: Home) {
    h.userId < Pow10(4) && h.fingerScannerSerial < Pow10(14)
  }

  /** Length of every Home packet. */
  const Width: nat := 27

  /** The characters of a packet given the printed form of each field: `userId` and
      `serial` are the numerals, `finger`, `action` and `relay` the one-character codes. */
  function Frame(sep: char, userId: seq<char>, finger: char, serial: seq<char>, action: char,
                 relay: char, rest: seq<char>): (s: seq<char>)
    ensures |s| == 9 + |userId| + |serial| + |rest|
  {
    ['1'] + ([sep] + (userId + ([sep] + ([finger] + ([sep] + (serial
    + ([sep] + ([action] + ([sep] + ([relay] + rest))))))))))
  }

  /** The packet that carries `h` with separator `sep`, followed by `rest` (encoder side,
      for specification only: the repository has no encoder). */
  function Packet(h: Home, sep: char, rest: seq<char>): (s: seq<char>)
    ensures |s| == Width + |rest|
  {
    Frame(sep, DecimalDigits(h.userId, 4), FingerField.Code(h.finger),
      DecimalDigits(h.fingerScannerSerial, 14), ActionField.Code(h.action), RelayCode(h.relay),
      rest)
  }

  /** The packet that carries exactly `h`, with separator `sep`. */
  function Encode(h: Home, sep: char): (s: seq<char>)
    ensures |s| == Width
  {
    Packet(h, sep, [])
  }

  /** `Home::nom`: a leading `'1'`, any character as the separator, then the five fields
      in order, each later one preceded by that same separator. */
  function HomeNom(input: seq<char>): Result<Home> {
    match Char('1', input)
    case Failure => Failure
    case Success(input, _) =>
    match AnyChar(input)
    case Failure => Failure
    case Success(input, separator) =>
    match U16N(4, input)
    case Failure => Failure
    case Success(input, userId) =>
    match Char(separator, input)
    case Failure => Failure
    case Success(input, _) =>
    match FingerField.Nom(input)
    case Failure => Failure
    case Success(input, finger) =>
    match Char(separator, input)
    case Failure => Failure
    case Success(input, _) =>
    match U64N(14, input)
    case Failure => Failure
    case Success(input, fingerScannerSerial) =>
    match Char(separator, input)
    case Failure => Failure
    case Success(input, _) =>
    match ActionField.Nom(input)
    case Failure => Failure
    case Success(input, action) =>
    match Char(separator, input)
    case Failure => Failure
    case Success(input, _) =>
    match RelayNom(input)
    case Failure => Failure
    case Success(input, relay) =>
    Success(input, Home(userId, finger, fingerScannerSerial, action, relay))
  }

  /** A successful `Home::nom` consumed exactly one packet: the leading `'1'`, the
      separator at index 1 and again at every later boundary, and five in-range fields. */
  lemma HomeNomExact(input: seq<char>)
    requires HomeNom(input).Success?
    ensures InRange(HomeNom(input).value)
    ensures |input| >= Width
    ensures input == Packet(HomeNom(input).value, input[1], HomeNom(input).rest)
  {
    var i1 := Char('1', input).rest;
    var sep := AnyChar(i1).value;
    var i2 := AnyChar(i1).rest;
    var userId := U16N(4, i2).value;
    var i3 := U16N(4, i2).rest;
    var i4 := Char(sep, i3).rest;
    var finger := FingerField.Nom(i4).value;
    var i5 := FingerField.Nom(i4).rest;
    var i6 := Char(sep, i5).rest;
    var serial := U64N(14, i6).value;
    var i7 := U64N(14, i6).rest;
    var i8 := Char(sep, i7).rest;
    var action := ActionField.Nom(i8).value;
    var i9 := ActionField.Nom(i8).rest;
    var i10 := Char(sep, i9).rest;
    var relay := RelayNom(i10).value;
    var rest := RelayNom(i10).rest;
    assert HomeNom(input) == Success(rest, Home(userId, finger, serial, action, relay));
  }

  /** `Home::from_str`: `Home::nom` under `all_consuming`. A decoded packet is exactly
      27 characters long and is the packet of its own fields and separator. */
  function FromStr(s: seq<char>): (r: Option<Home>)
    ensures r.Some? ==> InRange(r.value) && |s| == Width && s == Encode(r.value, s[1])
  {
    var r := AllConsuming(HomeNom(s));
    if r.Some? then HomeNomExact(s); r else r
  }

  /** Round trip: whatever the separator, `Home::nom` reads a packet back into the very
      fields it was built from and leaves what follows untouched. */
  lemma HomeNomPacket(h: Home, sep: char, rest: seq<char>)
    requires InRange(h)
    ensures HomeNom(Packet(h, sep, rest)) == Success(rest, h)
  {
    var relayPart := [RelayCode(h.relay)] + rest;
    RelayNomCode(h.relay, rest);
    var actionPart := [ActionField.Code(h.action)] + ([sep] + relayPart);
    ActionField.NomCode(h.action, [sep] + relayPart);
    var serialPart := DecimalDigits(h.fingerScannerSerial, 14) + ([sep] + actionPart);
    DigitNDecimalDigits(h.fingerScannerSerial, 14, [sep] + actionPart);
    var fingerPart := [FingerField.Code(h.finger)] + ([sep] + serialPart);
    FingerField.NomCode(h.finger, [sep] + serialPart);
    DigitNDecimalDigits(h.userId, 4, [sep] + fingerPart);
  }

  /** Round trip through `Home::from_str`. */
  lemma FromStrEncode(h: Home, sep: char)
    requires InRange(h)
    ensures FromStr(Encode(h, sep)) == Some(h)
  {
    HomeNomPacket(h, sep, []);
  }

  /** A string decodes to `h` exactly when it is `h`'s packet under some separator: the
      decoder accepts every well-formed packet and nothing else. */
  lemma FromStrCharacterization(s: seq<char>, h: Home)
    ensures FromStr(s) == Some(h) <==> InRange(h) && |s| > 1 && s == Encode(h, s[1])
  {
    if InRange(h) && |s| > 1 && s == Encode(h, s[1]) {
      FromStrEncode(h, s[1]);
    }
  }

  /** Indices of the separator in a Home packet. */
  const SeparatorIndices: set<nat> := {1, 6, 8, 23, 25}

  /** Where each field of a packet sits. */
  lemma PacketLayout(h: Home, sep: char, rest: seq<char>)
    ensures var p := Packet(h, sep, rest);
      && p[0] == '1' && p[1] == sep && p[2..6] == DecimalDigits(h.userId, 4)
      && p[6] == sep && p[7] == FingerField.Code(h.finger) && p[8] == sep
      && p[9..23] == DecimalDigits(h.fingerScannerSerial, 14)
      && p[23] == sep && p[24] == ActionField.Code(h.action) && p[25] == sep
      && p[26] == RelayCode(h.relay) && p[27..] == rest
  {
    FrameLayout(sep, DecimalDigits(h.userId, 4), FingerField.Code(h.finger),
      DecimalDigits(h.fingerScannerSerial, 14), ActionField.Code(h.action), RelayCode(h.relay),
      rest);
  }

  /** `PacketLayout` over any 4- and 14-character numeral spans. */
  lemma FrameLayout(sep: char, userId: seq<char>, finger: char, serial: seq<char>, action: char,
                    relay: char, rest: seq<char>)
    requires |userId| == 4 && |serial| == 14
    ensures var p := Frame(sep, userId, finger, serial, action, relay, rest);
      && p[0] == '1' && p[1] == sep && p[2..6] == userId
      && p[6] == sep && p[7] == finger && p[8] == sep && p[9..23] == serial
      && p[23] == sep && p[24] == action && p[25] == sep && p[26] == relay && p[27..] == rest
  {
  }

  /** In a packet that decodes, the separator read at index 1 recurs at every later
      field boundary. */
  lemma SeparatorPositions(s: seq<char>)
    requires FromStr(s).Some?
    ensures s[6] == s[1] && s[8] == s[1] && s[23] == s[1] && s[25] == s[1]
  {
    var h, sep := FromStr(s).value, s[1];
    EncodeSeparators(h, sep);
  }

  lemma EncodeSeparators(h: Home, sep: char)
    ensures forall i :: i in SeparatorIndices ==> Encode(h, sep)[i] == sep
  {
    PacketLayout(h, sep, []);
  }

  /** Rewriting the separator positions of a packet gives the packet under the new
      separator. */
  lemma ReplaceSeparatorsEncode(h: Home, a: char, c: char)
    ensures ReplaceSeparators(Encode(h, a), c, SeparatorIndices) == Encode(h, c)
  {
    FrameReplace(a, c, DecimalDigits(h.userId, 4), FingerField.Code(h.finger),
      DecimalDigits(h.fingerScannerSerial, 14), ActionField.Code(h.action), RelayCode(h.relay));
  }

  /** `ReplaceSeparatorsEncode` over any 4- and 14-character numeral spans. */
  lemma FrameReplace(a: char, c: char, userId: seq<char>, finger: char, serial: seq<char>,
                     action: char, relay: char)
    requires |userId| == 4 && |serial| == 14
    ensures ReplaceSeparators(Frame(a, userId, finger, serial, action, relay, []), c,
                              SeparatorIndices)
      == Frame(c, userId, finger, serial, action, relay, [])
  {
    var s := Frame(a, userId, finger, serial, action, relay, []);
    var t := ReplaceSeparators(s, c, SeparatorIndices);
    var e := Frame(c, userId, finger, serial, action, relay, []);
    FrameLayout(a, userId, finger, serial, action, relay, []);
    FrameLayout(c, userId, finger, serial, action, relay, []);
    forall i | 0 <= i < Width
      ensures t[i] == e[i]
    {
      if 2 <= i < 6 {
        assert s[i] == s[2..6][i - 2] && e[i] == e[2..6][i - 2];
      } else if 9 <= i < 23 {
        assert s[i] == s[9..23][i - 9] && e[i] == e[9..23][i - 9];
      }
    }
    assert |t| == |e|;
  }

  /** Separator independence: rewriting every separator position of a packet that
      decodes to any one character decodes to the same record. */
  lemma SeparatorIndependence(s: seq<char>, c: char)
    requires FromStr(s).Some?
    ensures FromStr(ReplaceSeparators(s, c, SeparatorIndices)) == FromStr(s)
  {
    var h := FromStr(s).value;
    ReplaceSeparatorsEncode(h, s[1], c);
    FromStrEncode(h, c);
  }

  /** A packet followed by any further character fails, as does one cut short. */
  lemma NoTrailingData(s: seq<char>, c: char)
    requires FromStr(s).Some?
    ensures FromStr(s + [c]).None?
    ensures |s| > 0 ==> FromStr(s[..|s| - 1]).None?
  {
  }

  /** The packet of the repository's test: user 3, right index finger (code `'7'`),
      scanner 80156809150025, open, relay 2. */
  lemma TestPacket()
    ensures FromStr("1_0003_7_80156809150025_1_2")
      == Some(Home(3, Some(FingerField.RightIndex), 80156809150025, ActionField.Open, Some(Relay2)))
  {
    var h := Home(3, Some(FingerField.RightIndex), 80156809150025, ActionField.Open, Some(Relay2));
    TestPacketEncoding(h);
    Pow10Values();
    FromStrEncode(h, '_');
  }

  lemma TestPacketEncoding(h: Home)
    requires h == Home(3, Some(FingerField.RightIndex), 80156809150025, ActionField.Open, Some(Relay2))
    ensures Encode(h, '_') == "1_0003_7_80156809150025_1_2"
  {
    TestNumerals();
    var d4, d14 := DecimalDigits(h.userId, 4), DecimalDigits(h.fingerScannerSerial, 14);
    assert d4 == "0003" && d14 == "80156809150025";
    var f, a, r := FingerField.Code(h.finger), ActionField.Code(h.action), RelayCode(h.relay);
    assert f == '7' && a == '1' && r == '2';
    assert Encode(h, '_')
      == ['1'] + (['_'] + (d4 + (['_'] + ([f] + (['_'] + (d14 + (['_'] + ([a] + (['_'] + ([r] + []))))))))));
    TestPacketLiteral();
  }

  lemma TestPacketLiteral()
    ensures ['1'] + (['_'] + ("0003" + (['_'] + (['7'] + (['_'] + ("80156809150025"
      + (['_'] + (['1'] + (['_'] + (['2'] + []))))))))))
      == "1_0003_7_80156809150025_1_2"
  {
  }
}
