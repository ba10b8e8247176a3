/** The "Multi" event packet (`src/multi.rs`): the user-status, key and digital-input enums
    and the 46-character grammar
    `1 S uuuu S nnnnnnnnn S t S f S k S ssssssssssssss S mmmm S a S i`,
    where `S` is the packet's own separator, `n` the padded user name and `m` the padded
    finger scanner name. */
module MultiPacket {
  import opened Wrappers
  import opened Nom
  import FingerField
  import ActionField

  // ---------------------------------------------------------------------------
  // UserStatus
  // ---------------------------------------------------------------------------

  datatype UserStatus = Active | Inactive

  /** The wire code of each optional user status, `'-'` for absent (encoder side, for
      specification only). */
  function UserStatusCode(u: Option<UserStatus>): char {
    match u
    case None => '-'
    case Some(Active) => '1'
    case Some(Inactive) => '2'
  }

  /** `UserStatus::nom`: `'1'` active, `'2'` inactive, `'-'` absent. */
  function UserStatusNom(input: seq<char>): (r: Result<Option<UserStatus>>)
    ensures r.Success? <==> |input| > 0 && input[0] in "12-"
    ensures r.Success? ==> input == [UserStatusCode(r.value)] + r.rest
  {
    if |input| == 0 then Failure
    else
      var rest := input[1..];
      match input[0]
      case '1' => Success(rest, Some(Active))
      case '2' => Success(rest, Some(Inactive))
      case '-' => Success(rest, None)
      case _ => Failure
  }

  lemma UserStatusNomCode(u: Option<UserStatus>, rest: seq<char>)
    ensures UserStatusNom([UserStatusCode(u)] + rest) == Success(rest, u)
  {
    assert ([UserStatusCode(u)] + rest)[1..] == rest;
  }

  // ---------------------------------------------------------------------------
  // Key
  // ---------------------------------------------------------------------------

  datatype Key = Key1 | Key2 | Key3 | Key4

  /** The wire code of each optional key, `'-'` for absent (encoder side, for
      specification only). */
  function KeyCode(k: Option<Key>): char {
    match k
    case None => '-'
    case Some(Key1) => '1'
    case Some(Key2) => '2'
    case Some(Key3) => '3'
    case Some(Key4) => '4'
  }

  /** `Key::nom`: `'1'`..`'4'`, `'-'` absent. */
  function KeyNom(input: seq<char>): (r: Result<Option<Key>>)
    ensures r.Success? <==> |input| > 0 && input[0] in "1234-"
    ensures r.Success? ==> input == [KeyCode(r.value)] + r.rest
  {
    if |input| == 0 then Failure
    else
      var rest := input[1..];
      match input[0]
      case '1' => Success(rest, Some(Key1))
      case '2' => Success(rest, Some(Key2))
      case '3' => Success(rest, Some(Key3))
      case '4' => Success(rest, Some(Key4))
      case '-' => Success(rest, None)
      case _ => Failure
  }

  lemma KeyNomCode(k: Option<Key>, rest: seq<char>)
    ensures KeyNom([KeyCode(k)] + rest) == Success(rest, k)
  {
    assert ([KeyCode(k)] + rest)[1..] == rest;
  }

  // ---------------------------------------------------------------------------
  // DigitalInput
  // ---------------------------------------------------------------------------

  datatype DigitalInput = Input1 | Input2 | Input3 | Input4

  /** The wire code of each optional digital input, `'-'` for absent (encoder side, for
      specification only). */
  function DigitalInputCode(d: Option<DigitalInput>): char {
    match d
    case None => '-'
    case Some(Input1) => '1'
    case Some(Input2) => '2'
    case Some(Input3) => '3'
    case Some(Input4) => '4'
  }

  /** `DigitalInput::nom`: `'1'`..`'4'`, `'-'` absent. */
  function DigitalInputNom(input: seq<char>): (r: Result<Option<DigitalInput>>)
    ensures r.Success? <==> |input| > 0 && input[0] in "1234-"
    ensures r.Success? ==> input == [DigitalInputCode(r.value)] + r.rest
  {
    if |input| == 0 then Failure
    else
      var rest := input[1..];
      match input[0]
      case '1' => Success(rest, Some(Input1))
      case '2' => Success(rest, Some(Input2))
      case '3' => Success(rest, Some(Input3))
      case '4' => Success(rest, Some(Input4))
      case '-' => Success(rest, None)
      case _ => Failure
  }

  lemma DigitalInputNomCode(d: Option<DigitalInput>, rest: seq<char>)
    ensures DigitalInputNom([DigitalInputCode(d)] + rest) == Success(rest, d)
  {
    assert ([DigitalInputCode(d)] + rest)[1..] == rest;
  }

  // ---------------------------------------------------------------------------
  // The Multi record and its grammar
  // ---------------------------------------------------------------------------

  /** The decoded record; its fields are the read-only accessors `user_id`, `user_name`,
      `user_staus` (sic), `finger`, `key`, `finger_scanner_serial`, `finger_scanner_name`,
      `action` and `input`. */
  datatype Multi = Multi(
    userId: u16,
    userName: Option<string>,
    userStatus: Option<UserStatus>,
    finger: Option<FingerField.Finger>,
    key: Option<Key>,
    fingerScannerSerial: u64,
    fingerScannerName: string,
    action: ActionField.Action,
    input: Option<DigitalInput>)

  const UserNameWidth: nat := 9
  const ScannerNameWidth: nat := 4

  /** What every decoded record satisfies: both numbers in range, a user name present,
      and both names trimmed texts of at most 9 and 4 allowed characters. */
  predicate Valid(m: Multi) {
    && m.userId < Pow10(4)
    && m.fingerScannerSerial < Pow10(14)
    && m.userName.Some?
    && IsFieldText(m.userName.value, UserNameWidth)
    && IsFieldText(m.fingerScannerName, ScannerNameWidth)
  }

  /** Length of every Multi packet. */
  const Width: nat := 46

  /** A text padded (or cut) to width `w` (encoder side, for specification only). */
  function TextField(t: seq<char>, w: nat): (f: seq<char>)
    ensures |f| == w
  {
    if |t| <= w then PadEnd(t, w) else t[..w]
  }

  /** The user-name span: the padded name, or a `'-'` span for an absent name (which the
      decoder never accepts back). */
  function UserNameField(n: Option<string>): (f: seq<char>)
    ensures |f| == UserNameWidth
  {
    match n
    case Some(t) => TextField(t, UserNameWidth)
    case None => TextField("-", UserNameWidth)
  }

  /** The first stretch of a packet: `'1'`, the separator, the user id and the user-name
      span, followed by `rest` (encoder side, for specification only: the repository has no
      encoder). */
  function HeadPacket(sep: char, userId: nat, userName: Option<string>, rest: seq<char>)
    : (s: seq<char>)
    ensures |s| == 16 + |rest|
  {
    ['1'] + ([sep] + (DecimalDigits(userId, 4) + ([sep] + (UserNameField(userName) + rest))))
  }

  /** The second stretch: status, finger, key and scanner serial, each after a separator. */
  function MiddlePacket(sep: char, userStatus: Option<UserStatus>,
                        finger: Option<FingerField.Finger>, key: Option<Key>, serial: nat,
                        rest: seq<char>): (s: seq<char>)
    ensures |s| == 21 + |rest|
  {
    [sep] + ([UserStatusCode(userStatus)]
    + ([sep] + ([FingerField.Code(finger)]
    + ([sep] + ([KeyCode(key)]
    + ([sep] + (DecimalDigits(serial, 14) + rest)))))))
  }

  /** The last stretch: scanner name, action and digital input, each after a separator. */
  function TailPacket(sep: char, scannerName: string, action: ActionField.Action,
                      input: Option<DigitalInput>, rest: seq<char>): (s: seq<char>)
    ensures |s| == 9 + |rest|
  {
    [sep] + (TextField(scannerName, ScannerNameWidth)
    + ([sep] + ([ActionField.Code(action)]
    + ([sep] + ([DigitalInputCode(input)] + rest)))))
  }

  /** The packet that carries `m` with separator `sep`, followed by `rest`. */
  function Packet(m: Multi, sep: char, rest: seq<char>): (s: seq<char>)
    ensures |s| == Width + |rest|
  {
    HeadPacket(sep, m.userId, m.userName,
      MiddlePacket(sep, m.userStatus, m.finger, m.key, m.fingerScannerSerial,
        TailPacket(sep, m.fingerScannerName, m.action, m.input, rest)))
  }

  /** The packet that carries exactly `m`, with separator `sep`. */
  function Encode(m: Multi, sep: char): (s: seq<char>)
    ensures |s| == Width
  {
    Packet(m, sep, [])
  }

  /** The user name as `Multi::nom` derives it from its 9-character span: absent when the
      span starts with `'-'`, otherwise the span with trailing whitespace trimmed. */
  function UserName(span: seq<char>): Option<string> {
    if |span| > 0 && span[0] == '-' then None else Some(TrimEnd(span))
  }

  /** `Multi::nom`: a leading `'1'`, any character as the separator, then the nine fields
      in order, each later one preceded by that same separator. */
  function MultiNom(input: seq<char>): Result<Multi> {
    match Char('1', input)
    case Failure => Failure
    case Success(input, _) =>
    match AnyChar(input)
    case Failure => Failure
    case Success(input, separator) =>
    match U16N(4, input)
    case Failure => Failure
    case Success(input, userId) =>
    match Char(separator, input)
    case Failure => Failure
    case Success(input, _) =>
    match AlphanumericN(UserNameWidth, input)
    case Failure => Failure
    case Success(input, userName) =>
    var userName := UserName(userName);
    match Char(separator, input)
    case Failure => Failure
    case Success(input, _) =>
    match UserStatusNom(input)
    case Failure => Failure
    case Success(input, userStatus) =>
    match Char(separator, input)
    case Failure => Failure
    case Success(input, _) =>
    match FingerField.Nom(input)
    case Failure => Failure
    case Success(input, finger) =>
    match Char(separator, input)
    case Failure => Failure
    case Success(input, _) =>
    match KeyNom(input)
    case Failure => Failure
    case Success(input, key) =>
    match Char(separator, input)
    case Failure => Failure
    case Success(input, _) =>
    match U64N(14, input)
    case Failure => Failure
    case Success(input, fingerScannerSerial) =>
    match Char(separator, input)
    case Failure => Failure
    case Success(input, _) =>
    match AlphanumericN(ScannerNameWidth, input)
    case Failure => Failure
    case Success(input, fingerScannerName) =>
    var fingerScannerName := TrimEnd(fingerScannerName);
    match Char(separator, input)
    case Failure => Failure
    case Success(input, _) =>
    match ActionField.Nom(input)
    case Failure => Failure
    case Success(input, action) =>
    match Char(separator, input)
    case Failure => Failure
    case Success(input, _) =>
    match DigitalInputNom(input)
    case Failure => Failure
    case Success(input, digitalInput) =>
    Success(input, Multi(userId, userName, userStatus, finger, key, fingerScannerSerial,
      fingerScannerName, action, digitalInput))
  }

  /** `Multi::nom` cut into three stages run one after another, each handing back the
      fields it has read; the proofs about `Multi::nom` go through this form. */
  function StagedNom(input: seq<char>): Result<Multi> {
    var h := HeadNom(input);
    if h.Failure? then Failure else
    var d := MiddleNom(h.rest, h.value.0);
    if d.Failure? then Failure else
    var t := TailNom(d.rest, h.value.0);
    if t.Failure? then Failure else
    Success(t.rest, Multi(h.value.1, h.value.2, d.value.0, d.value.1,
        d.value.2, d.value.3, t.value.0, t.value.1, t.value.2))
  }

  /** First stage: `'1'`, the separator, the user id and the user name. */
  function HeadNom(input: seq<char>): Result<(char, u16, Option<string>)> {
    match Char('1', input)
    case Failure => Failure
    case Success(input, _) =>
    match AnyChar(input)
    case Failure => Failure
    case Success(input, separator) =>
    match U16N(4, input)
    case Failure => Failure
    case Success(input, userId) =>
    match Char(separator, input)
    case Failure => Failure
    case Success(input, _) =>
    match AlphanumericN(UserNameWidth, input)
    case Failure => Failure
    case Success(input, userName) =>
    Success(input, (separator, userId, UserName(userName)))
  }

  /** Second stage: user status, finger, key and scanner serial. */
  function MiddleNom(input: seq<char>, separator: char)
    : Result<(Option<UserStatus>, Option<FingerField.Finger>, Option<Key>, u64)>
  {
    match Char(separator, input)
    case Failure => Failure
    case Success(input, _) =>
    match UserStatusNom(input)
    case Failure => Failure
    case Success(input, userStatus) =>
    match Char(separator, input)
    case Failure => Failure
    case Success(input, _) =>
    match FingerField.Nom(input)
    case Failure => Failure
    case Success(input, finger) =>
    match Char(separator, input)
    case Failure => Failure
    case Success(input, _) =>
    match KeyNom(input)
    case Failure => Failure
    case Success(input, key) =>
    match Char(separator, input)
    case Failure => Failure
    case Success(input, _) =>
    match U64N(14, input)
    case Failure => Failure
    case Success(input, fingerScannerSerial) =>
    Success(input, (userStatus, finger, key, fingerScannerSerial))
  }

  /** Last stage: scanner name, action and digital input. */
  function TailNom(input: seq<char>, separator: char)
    : Result<(string, ActionField.Action, Option<DigitalInput>)>
  {
    match Char(separator, input)
    case Failure => Failure
    case Success(input, _) =>
    match AlphanumericN(ScannerNameWidth, input)
    case Failure => Failure
    case Success(input, fingerScannerName) =>
    var fingerScannerName := TrimEnd(fingerScannerName);
    match Char(separator, input)
    case Failure => Failure
    case Success(input, _) =>
    match ActionField.Nom(input)
    case Failure => Failure
    case Success(input, action) =>
    match Char(separator, input)
    case Failure => Failure
    case Success(input, _) =>
    match DigitalInputNom(input)
    case Failure => Failure
    case Success(input, digitalInput) =>
    Success(input, (fingerScannerName, action, digitalInput))
  }

  /** A scanned name span is given back by padding its trimmed text. */
  lemma TextFieldTrimEnd(span: seq<char>)
    requires AllAllowed(span)
    ensures IsFieldText(TrimEnd(span), |span|)
    ensures TextField(TrimEnd(span), |span|) == span
  {
    TrimEndPadEnd(span);
  }

  /** A scanned user-name span never starts with `'-'`, so the name is always present:
      the `None` branch of `Multi::nom` is dead. */
  lemma UserNamePresent(span: seq<char>)
    requires |span| == UserNameWidth && AllAllowed(span)
    ensures UserName(span) == Some(TrimEnd(span))
    ensures IsFieldText(UserName(span).value, UserNameWidth)
    ensures UserNameField(UserName(span)) == span
  {
    assert IsAllowed(span[0]);
    TextFieldTrimEnd(span);
  }

  /** A successful first stage read exactly a head stretch, with the separator at index 1
      and a present, valid user name. */
  lemma HeadNomExact(input: seq<char>)
    requires HeadNom(input).Success?
    ensures var r := HeadNom(input); var (sep, userId, userName) := r.value;
      && |input| > 1 && sep == input[1] && userId < Pow10(4)
      && userName.Some? && IsFieldText(userName.value, UserNameWidth)
      && input == HeadPacket(sep, userId, userName, r.rest)
  {
    var i1 := Char('1', input).rest;
    var sep := AnyChar(i1).value;
    var i2 := AnyChar(i1).rest;
    var userId := U16N(4, i2).value;
    var i3 := U16N(4, i2).rest;
    var i4 := Char(sep, i3).rest;
    var nameSpan := AlphanumericN(UserNameWidth, i4).value;
    var i5 := AlphanumericN(UserNameWidth, i4).rest;
    UserNamePresent(nameSpan);
    assert HeadNom(input) == Success(i5, (sep, userId, UserName(nameSpan)));
  }

  /** A successful second stage read exactly a middle stretch. */
  lemma MiddleNomExact(input: seq<char>, sep: char)
    requires MiddleNom(input, sep).Success?
    ensures var r := MiddleNom(input, sep); var (userStatus, finger, key, serial) := r.value;
      && serial < Pow10(14)
      && input == MiddlePacket(sep, userStatus, finger, key, serial, r.rest)
  {
    var i1 := Char(sep, input).rest;
    var userStatus := UserStatusNom(i1).value;
    var i2 := UserStatusNom(i1).rest;
    var i3 := Char(sep, i2).rest;
    var finger := FingerField.Nom(i3).value;
    var i4 := FingerField.Nom(i3).rest;
    var i5 := Char(sep, i4).rest;
    var key := KeyNom(i5).value;
    var i6 := KeyNom(i5).rest;
    var i7 := Char(sep, i6).rest;
    var serial := U64N(14, i7).value;
    var i8 := U64N(14, i7).rest;
    assert MiddleNom(input, sep) == Success(i8, (userStatus, finger, key, serial));
  }

  /** A successful last stage read exactly a tail stretch, with a valid scanner name. */
  lemma TailNomExact(input: seq<char>, sep: char)
    requires TailNom(input, sep).Success?
    ensures var r := TailNom(input, sep); var (scannerName, action, digitalInput) := r.value;
      && IsFieldText(scannerName, ScannerNameWidth)
      && input == TailPacket(sep, scannerName, action, digitalInput, r.rest)
  {
    var i1 := Char(sep, input).rest;
    var scannerSpan := AlphanumericN(ScannerNameWidth, i1).value;
    var i2 := AlphanumericN(ScannerNameWidth, i1).rest;
    TextFieldTrimEnd(scannerSpan);
    var i3 := Char(sep, i2).rest;
    var action := ActionField.Nom(i3).value;
    var i4 := ActionField.Nom(i3).rest;
    var i5 := Char(sep, i4).rest;
    var digitalInput := DigitalInputNom(i5).value;
    var rest := DigitalInputNom(i5).rest;
    assert TailNom(input, sep) == Success(rest, (TrimEnd(scannerSpan), action, digitalInput));
  }

  /** A successful `Multi::nom` consumed exactly one packet: the leading `'1'`, the
      separator at index 1 and again at every later boundary, and nine valid fields. */
  lemma MultiNomExact(input: seq<char>)
    requires MultiNom(input).Success?
    ensures Valid(MultiNom(input).value)
    ensures |input| >= Width
    ensures input == Packet(MultiNom(input).value, input[1], MultiNom(input).rest)
  {
    MultiNomStages(input);
    StagedNomExact(input);
  }

  /** `MultiNomExact` for the staged form. */
  lemma StagedNomExact(input: seq<char>)
    requires StagedNom(input).Success?
    ensures Valid(StagedNom(input).value)
    ensures |input| >= Width
    ensures input == Packet(StagedNom(input).value, input[1], StagedNom(input).rest)
  {
    HeadNomExact(input);
    var (sep, _, _) := HeadNom(input).value;
    var i1 := HeadNom(input).rest;
    MiddleNomExact(i1, sep);
    var i2 := MiddleNom(i1, sep).rest;
    TailNomExact(i2, sep);
  }

  /** `Multi::from_str`: `Multi::nom` under `all_consuming`. A decoded packet is exactly
      46 characters long and is the packet of its own fields and separator. */
  function FromStr(s: seq<char>): (r: Option<Multi>)
    ensures r.Some? ==> Valid(r.value) && |s| == Width && s == Encode(r.value, s[1])
  {
    var r := AllConsuming(MultiNom(s));
    if r.Some? then MultiNomExact(s); r else r
  }

  /** A padded field text is scanned back whole, and trimming the scan gives the text. */
  lemma TextFieldSpan(t: string, w: nat, rest: seq<char>)
    requires IsFieldText(t, w)
    ensures AllAllowed(TextField(t, w))
    ensures AlphanumericN(w, TextField(t, w) + rest) == Success(rest, TextField(t, w))
    ensures TrimEnd(TextField(t, w)) == t
  {
    var x := PadEnd(t, w);
    forall i | 0 <= i < w ensures IsAllowed(x[i]) {
      if i < |t| {
        assert x[i] == x[..|t|][i];
      }
    }
    AlphanumericNSpan(w, x, rest);
    PadEndTrimEnd(t, w);
  }

  /** The first stage reads a head stretch back. */
  lemma HeadNomPacket(sep: char, userId: u16, name: string, rest: seq<char>)
    requires userId < Pow10(4) && IsFieldText(name, UserNameWidth)
    ensures HeadNom(HeadPacket(sep, userId, Some(name), rest))
      == Success(rest, (sep, userId, Some(name)))
  {
    var nameSpan := UserNameField(Some(name));
    U16NDecimalDigits(userId, 4, [sep] + (nameSpan + rest));
    TextFieldSpan(name, UserNameWidth, rest);
    UserNamePresent(nameSpan);
    HeadNomSpan(sep, DecimalDigits(userId, 4), userId, nameSpan, name, rest);
  }

  /** The first stage over any number span that reads as the user id and any name span
      that reads as the user name. */
  lemma HeadNomSpan(sep: char, digits: seq<char>, userId: u16, span: seq<char>, name: string,
                    rest: seq<char>)
    requires U16N(4, digits + ([sep] + (span + rest))) == Success([sep] + (span + rest), userId)
    requires AlphanumericN(UserNameWidth, span + rest) == Success(rest, span)
    requires UserName(span) == Some(name)
    ensures HeadNom(['1'] + ([sep] + (digits + ([sep] + (span + rest)))))
      == Success(rest, (sep, userId, Some(name)))
  {
    var i3 := [sep] + (span + rest);
    var i1 := [sep] + (digits + i3);
    CharCons('1', i1);
    AnyCharCons(sep, digits + i3);
    CharCons(sep, span + rest);
  }

  /** The second stage reads a middle stretch back. */
  lemma MiddleNomPacket(sep: char, userStatus: Option<UserStatus>,
                        finger: Option<FingerField.Finger>, key: Option<Key>, serial: u64,
                        rest: seq<char>)
    requires serial < Pow10(14)
    ensures MiddleNom(MiddlePacket(sep, userStatus, finger, key, serial, rest), sep)
      == Success(rest, (userStatus, finger, key, serial))
  {
    Pow10Values();
    U64NDecimalDigits(serial, 14, rest);
    MiddleNomSpan(sep, userStatus, finger, key, DecimalDigits(serial, 14), serial, rest);
  }

  /** The second stage over any number span that reads as the scanner serial. */
  lemma MiddleNomSpan(sep: char, userStatus: Option<UserStatus>,
                      finger: Option<FingerField.Finger>, key: Option<Key>, digits: seq<char>,
                      serial: u64, rest: seq<char>)
    requires U64N(14, digits + rest) == Success(rest, serial)
    ensures MiddleNom([sep] + ([UserStatusCode(userStatus)] + ([sep] + ([FingerField.Code(finger)]
      + ([sep] + ([KeyCode(key)] + ([sep] + (digits + rest))))))), sep)
      == Success(rest, (userStatus, finger, key, serial))
  {
    var i7 := digits + rest;
    var i5 := [KeyCode(key)] + ([sep] + i7);
    var i3 := [FingerField.Code(finger)] + ([sep] + i5);
    var i1 := [UserStatusCode(userStatus)] + ([sep] + i3);
    CharCons(sep, i1);
    UserStatusNomCode(userStatus, [sep] + i3);
    CharCons(sep, i3);
    FingerField.NomCode(finger, [sep] + i5);
    CharCons(sep, i5);
    KeyNomCode(key, [sep] + i7);
    CharCons(sep, i7);
  }

  /** The last stage reads a tail stretch back. */
  lemma TailNomPacket(sep: char, scannerName: string, action: ActionField.Action,
                      input: Option<DigitalInput>, rest: seq<char>)
    requires IsFieldText(scannerName, ScannerNameWidth)
    ensures TailNom(TailPacket(sep, scannerName, action, input, rest), sep)
      == Success(rest, (scannerName, action, input))
  {
    var after := [sep] + ([ActionField.Code(action)] + ([sep] + ([DigitalInputCode(input)] + rest)));
    TextFieldSpan(scannerName, ScannerNameWidth, after);
    TailNomSpan(sep, TextField(scannerName, ScannerNameWidth), scannerName, action, input, rest);
  }

  /** The third stage over any scanned span that trims to the scanner name. */
  lemma TailNomSpan(sep: char, span: seq<char>, scannerName: string, action: ActionField.Action,
                    input: Option<DigitalInput>, rest: seq<char>)
    requires var after := [sep] + ([ActionField.Code(action)] + ([sep] + ([DigitalInputCode(input)] + rest)));
      AlphanumericN(ScannerNameWidth, span + after) == Success(after, span)
    requires TrimEnd(span) == scannerName
    ensures TailNom([sep] + (span + ([sep] + ([ActionField.Code(action)] + ([sep] + ([DigitalInputCode(input)] + rest))))), sep)
      == Success(rest, (scannerName, action, input))
  {
    var i5 := [DigitalInputCode(input)] + rest;
    var i3 := [ActionField.Code(action)] + ([sep] + i5);
    CharCons(sep, span + ([sep] + i3));
    CharCons(sep, i3);
    ActionField.NomCode(action, [sep] + i5);
    CharCons(sep, i5);
    DigitalInputNomCode(input, rest);
  }

  /** The three stages read the same fields in the same order as `Multi::nom` and fail
      at the same points: on every input both give the same outcome. */
  lemma MultiNomStages(input: seq<char>)
    ensures MultiNom(input) == StagedNom(input)
  {
  }

  /** Round trip: whatever the separator, `Multi::nom` reads a packet of a valid record
      back into that record and leaves what follows untouched. */
  lemma MultiNomPacket(m: Multi, sep: char, rest: seq<char>)
    requires Valid(m)
    ensures MultiNom(Packet(m, sep, rest)) == Success(rest, m)
  {
    MultiNomStages(Packet(m, sep, rest));
    StagedNomPacket(m, sep, rest);
  }

  /** `MultiNomPacket` for the staged form. */
  lemma StagedNomPacket(m: Multi, sep: char, rest: seq<char>)
    requires Valid(m)
    ensures StagedNom(Packet(m, sep, rest)) == Success(rest, m)
  {
    var tail := TailPacket(sep, m.fingerScannerName, m.action, m.input, rest);
    var middle := MiddlePacket(sep, m.userStatus, m.finger, m.key, m.fingerScannerSerial, tail);
    HeadNomPacket(sep, m.userId, m.userName.value, middle);
    MiddleNomPacket(sep, m.userStatus, m.finger, m.key, m.fingerScannerSerial, tail);
    TailNomPacket(sep, m.fingerScannerName, m.action, m.input, rest);
  }

  /** Round trip through `Multi::from_str`. */
  lemma FromStrEncode(m: Multi, sep: char)
    requires Valid(m)
    ensures FromStr(Encode(m, sep)) == Some(m)
  {
    MultiNomPacket(m, sep, []);
  }

  /** A string decodes to `m` exactly when `m` is valid and the string is `m`'s packet
      under some separator. */
  lemma FromStrCharacterization(s: seq<char>, m: Multi)
    ensures FromStr(s) == Some(m) <==> Valid(m) && |s| > 1 && s == Encode(m, s[1])
  {
    if Valid(m) && |s| > 1 && s == Encode(m, s[1]) {
      FromStrEncode(m, s[1]);
    }
  }

  /** Indices of the separator in a Multi packet. */
  const SeparatorIndices: set<nat> := {1, 6, 16, 18, 20, 22, 37, 42, 44}

  /** The head stretch under separators `a` and `c`: separators at offsets 1 and 6, the
      same characters everywhere else, and the following input from offset 16 on. */
  lemma HeadAgree(a: char, c: char, userId: nat, userName: Option<string>, r: seq<char>,
                  r': seq<char>)
    ensures var p, q := HeadPacket(a, userId, userName, r), HeadPacket(c, userId, userName, r');
      && p[1] == a && p[6] == a && q[1] == c && q[6] == c && p[16..] == r && q[16..] == r'
      && forall i :: 0 <= i < 16 && i != 1 && i != 6 ==> p[i] == q[i]
  {
    HeadShapeAgree(a, c, DecimalDigits(userId, 4), UserNameField(userName), r, r');
  }

  /** `HeadAgree` over any 4-character number and 9-character name spans. */
  lemma HeadShapeAgree(a: char, c: char, d: seq<char>, n: seq<char>, r: seq<char>, r': seq<char>)
    requires |d| == 4 && |n| == UserNameWidth
    ensures var p, q := ['1'] + ([a] + (d + ([a] + (n + r)))), ['1'] + ([c] + (d + ([c] + (n + r'))));
      && p[1] == a && p[6] == a && q[1] == c && q[6] == c && p[16..] == r && q[16..] == r'
      && forall i :: 0 <= i < 16 && i != 1 && i != 6 ==> p[i] == q[i]
  {
    var p, q := ['1'] + ([a] + (d + ([a] + (n + r)))), ['1'] + ([c] + (d + ([c] + (n + r'))));
    assert p[2..6] == d == q[2..6] && p[7..16] == n == q[7..16];
    forall i | 0 <= i < 16 && i != 1 && i != 6 ensures p[i] == q[i] {
      if 2 <= i < 6 {
        assert p[i] == p[2..6][i - 2] && q[i] == q[2..6][i - 2];
      } else if 7 <= i {
        assert p[i] == p[7..16][i - 7] && q[i] == q[7..16][i - 7];
      }
    }
  }

  /** The middle stretch under separators `a` and `c`: separators at offsets 0, 2, 4 and 6,
      the same characters everywhere else, and the following input from offset 21 on. */
  lemma MiddleAgree(a: char, c: char, userStatus: Option<UserStatus>,
                    finger: Option<FingerField.Finger>, key: Option<Key>, serial: nat,
                    r: seq<char>, r': seq<char>)
    ensures var p, q := MiddlePacket(a, userStatus, finger, key, serial, r),
                        MiddlePacket(c, userStatus, finger, key, serial, r');
      && p[0] == a && p[2] == a && p[4] == a && p[6] == a
      && q[0] == c && q[2] == c && q[4] == c && q[6] == c
      && p[21..] == r && q[21..] == r'
      && forall i :: 0 <= i < 21 && i != 0 && i != 2 && i != 4 && i != 6 ==> p[i] == q[i]
  {
    var p, q := MiddlePacket(a, userStatus, finger, key, serial, r),
                MiddlePacket(c, userStatus, finger, key, serial, r');
    var d := DecimalDigits(serial, 14);
    assert p[7..21] == d == q[7..21];
    forall i | 7 <= i < 21 ensures p[i] == q[i] {
      assert p[i] == p[7..21][i - 7] && q[i] == q[7..21][i - 7];
    }
  }

  /** The tail stretch under separators `a` and `c`: separators at offsets 0, 5 and 7, the
      same characters everywhere else, and the following input from offset 9 on. */
  lemma TailAgree(a: char, c: char, scannerName: string, action: ActionField.Action,
                  input: Option<DigitalInput>, r: seq<char>, r': seq<char>)
    ensures var p, q := TailPacket(a, scannerName, action, input, r),
                        TailPacket(c, scannerName, action, input, r');
      && p[0] == a && p[5] == a && p[7] == a && q[0] == c && q[5] == c && q[7] == c
      && p[9..] == r && q[9..] == r'
      && forall i :: 0 <= i < 9 && i != 0 && i != 5 && i != 7 ==> p[i] == q[i]
  {
    var p, q := TailPacket(a, scannerName, action, input, r),
                TailPacket(c, scannerName, action, input, r');
    var n := TextField(scannerName, ScannerNameWidth);
    assert p[1..5] == n == q[1..5];
    forall i | 1 <= i < 5 ensures p[i] == q[i] {
      assert p[i] == p[1..5][i - 1] && q[i] == q[1..5][i - 1];
    }
  }

  /** The packets of one record under separators `a` and `c` hold `a` and `c` at every
      separator index and agree everywhere else. */
  lemma EncodeAgree(m: Multi, a: char, c: char)
    ensures forall i :: i in SeparatorIndices ==> Encode(m, a)[i] == a && Encode(m, c)[i] == c
    ensures forall i :: 0 <= i < Width && i !in SeparatorIndices ==>
      Encode(m, a)[i] == Encode(m, c)[i]
  {
    var ta := TailPacket(a, m.fingerScannerName, m.action, m.input, []);
    var tc := TailPacket(c, m.fingerScannerName, m.action, m.input, []);
    var ma := MiddlePacket(a, m.userStatus, m.finger, m.key, m.fingerScannerSerial, ta);
    var mc := MiddlePacket(c, m.userStatus, m.finger, m.key, m.fingerScannerSerial, tc);
    var s, e := Encode(m, a), Encode(m, c);
    HeadAgree(a, c, m.userId, m.userName, ma, mc);
    MiddleAgree(a, c, m.userStatus, m.finger, m.key, m.fingerScannerSerial, ta, tc);
    TailAgree(a, c, m.fingerScannerName, m.action, m.input, [], []);
    forall i | 16 <= i < Width ensures s[i] == ma[i - 16] && e[i] == mc[i - 16] {
      assert s[i] == s[16..][i - 16] && e[i] == e[16..][i - 16];
    }
    forall i | 37 <= i < Width ensures s[i] == ta[i - 37] && e[i] == tc[i - 37] {
      assert ma[i - 16] == ma[21..][i - 37] && mc[i - 16] == mc[21..][i - 37];
    }
  }

  /** In a packet that decodes, the separator read at index 1 recurs at every later
      field boundary. */
  lemma SeparatorPositions(s: seq<char>)
    requires FromStr(s).Some?
    ensures s[6] == s[1] && s[16] == s[1] && s[18] == s[1] && s[20] == s[1]
    ensures s[22] == s[1] && s[37] == s[1] && s[42] == s[1] && s[44] == s[1]
  {
    var m, sep := FromStr(s).value, s[1];
    EncodeAgree(m, sep, sep);
  }

  /** Rewriting the separator positions of a packet gives the packet under the new
      separator. */
  lemma ReplaceSeparatorsEncode(m: Multi, a: char, c: char)
    ensures ReplaceSeparators(Encode(m, a), c, SeparatorIndices) == Encode(m, c)
  {
    var s, e := Encode(m, a), Encode(m, c);
    var t := ReplaceSeparators(s, c, SeparatorIndices);
    EncodeAgree(m, a, c);
    assert forall i :: 0 <= i < Width ==> t[i] == e[i];
  }

  /** Separator independence: rewriting every separator position of a packet that
      decodes to any one character decodes to the same record. */
  lemma SeparatorIndependence(s: seq<char>, c: char)
    requires FromStr(s).Some?
    ensures FromStr(ReplaceSeparators(s, c, SeparatorIndices)) == FromStr(s)
  {
    var m := FromStr(s).value;
    ReplaceSeparatorsEncode(m, s[1], c);
    FromStrEncode(m, c);
  }

  /** A packet followed by any further character fails, as does one cut short. */
  lemma NoTrailingData(s: seq<char>, c: char)
    requires FromStr(s).Some?
    ensures FromStr(s + [c]).None?
    ensures |s| > 0 ==> FromStr(s[..|s| - 1]).None?
  {
  }

  /** The packet of the repository's test: user 3 named JOSEF, active, right index finger
      (code `'7'`), key 2, scanner 80156809150025 named GAR, open, no digital input. */
  lemma TestPacket()
    ensures FromStr("1_0003_JOSEF    _1_7_2_80156809150025_GAR _1_-")
      == Some(Multi(3, Some("JOSEF"), Some(Active), Some(FingerField.RightIndex), Some(Key2),
                    80156809150025, "GAR", ActionField.Open, None))
  {
    var m := Multi(3, Some("JOSEF"), Some(Active), Some(FingerField.RightIndex), Some(Key2),
                   80156809150025, "GAR", ActionField.Open, None);
    TestPacketEncoding(m);
    TestPacketValid(m);
    FromStrEncode(m, '_');
  }

  lemma TestPacketValid(m: Multi)
    requires m == Multi(3, Some("JOSEF"), Some(Active), Some(FingerField.RightIndex), Some(Key2),
                        80156809150025, "GAR", ActionField.Open, None)
    ensures Valid(m)
  {
    Pow10Values();
    assert IsFieldText(m.userName.value, UserNameWidth);
  }

  lemma TestPacketEncoding(m: Multi)
    requires m == Multi(3, Some("JOSEF"), Some(Active), Some(FingerField.RightIndex), Some(Key2),
                        80156809150025, "GAR", ActionField.Open, None)
    ensures Encode(m, '_') == "1_0003_JOSEF    _1_7_2_80156809150025_GAR _1_-"
  {
    var t := TailPacket('_', m.fingerScannerName, m.action, m.input, []);
    TestTail(m);
    var d := MiddlePacket('_', m.userStatus, m.finger, m.key, m.fingerScannerSerial, t);
    TestMiddle(m, t);
    TestHead(m, d);
    TestJoin();
  }

  lemma TestJoin()
    ensures "1_0003_JOSEF    " + ("_1_7_2_80156809150025" + "_GAR _1_-")
      == "1_0003_JOSEF    _1_7_2_80156809150025_GAR _1_-"
  {
  }

  lemma TestHead(m: Multi, rest: seq<char>)
    requires m == Multi(3, Some("JOSEF"), Some(Active), Some(FingerField.RightIndex), Some(Key2),
                        80156809150025, "GAR", ActionField.Open, None)
    ensures HeadPacket('_', m.userId, m.userName, rest) == "1_0003_JOSEF    " + rest
  {
    TestNumerals();
    var d, n := DecimalDigits(m.userId, 4), UserNameField(m.userName);
    assert n == "JOSEF    ";
    TestHeadLiteral(d, n, rest);
  }

  lemma TestHeadLiteral(d: seq<char>, n: seq<char>, rest: seq<char>)
    requires d == "0003" && n == "JOSEF    "
    ensures ['1'] + (['_'] + (d + (['_'] + (n + rest)))) == "1_0003_JOSEF    " + rest
  {
  }

  lemma TestMiddle(m: Multi, rest: seq<char>)
    requires m == Multi(3, Some("JOSEF"), Some(Active), Some(FingerField.RightIndex), Some(Key2),
                        80156809150025, "GAR", ActionField.Open, None)
    ensures MiddlePacket('_', m.userStatus, m.finger, m.key, m.fingerScannerSerial, rest)
      == "_1_7_2_80156809150025" + rest
  {
    TestNumerals();
    assert FingerField.Code(m.finger) == '7';
    TestMiddleLiteral(DecimalDigits(m.fingerScannerSerial, 14), rest);
  }

  lemma TestMiddleLiteral(d: seq<char>, rest: seq<char>)
    requires d == "80156809150025"
    ensures ['_'] + (['1'] + (['_'] + (['7'] + (['_'] + (['2'] + (['_'] + (d + rest)))))))
      == "_1_7_2_80156809150025" + rest
  {
  }

  lemma TestTail(m: Multi)
    requires m == Multi(3, Some("JOSEF"), Some(Active), Some(FingerField.RightIndex), Some(Key2),
                        80156809150025, "GAR", ActionField.Open, None)
    ensures TailPacket('_', m.fingerScannerName, m.action, m.input, []) == "_GAR _1_-"
  {
    var g := TextField(m.fingerScannerName, ScannerNameWidth);
    assert g == "GAR ";
    assert ActionField.Code(m.action) == '1';
    TestTailLiteral(g);
  }

  lemma TestTailLiteral(g: seq<char>)
    requires g == "GAR "
    ensures ['_'] + (g + (['_'] + (['1'] + (['_'] + (['-'] + []))))) == "_GAR _1_-"
  {
  }
}
