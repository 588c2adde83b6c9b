/**
 * The leader's line-oriented text protocol (how one trimmed line is classified as
 * SET, GET, a chat broadcast, a skipped blank line or a line dropped without reply)
 * and the `tolerance.conf` reader.
 */
module ClientProtocol {
  import opened Optional
  import opened JavaString
  import opened LineReader

  /**
   * One input line as the leader understands it. `Malformed` is a SET or GET whose
   * id does not parse or whose parts are missing: the exception is swallowed and the
   * line gets no reply.
   */
  datatype Command =
    | Blank
    | SetCommand(id: Int32, message: string)
    | GetCommand(id: Int32)
    | ChatCommand(text: string)
    | Malformed

  /** The command word, upper-cased: the first of at most three space-separated parts. */
  function Verb(text: string): string {
    UpperCase(SplitLimit(text, ' ', 3)[0])
  }

  /** The at most three space-separated parts of the trimmed line. */
  function Parts(line: string): seq<string> {
    SplitLimit(Trim(line), ' ', 3)
  }

  /** A SET needs an id that parses in part two and a message in part three. */
  predicate SetFieldsValid(parts: seq<string>) {
    |parts| == 3 && ParseInt(parts[1]).Some?
  }

  /** A GET needs an id that parses in part two; a third part is ignored. */
  predicate GetFieldsValid(parts: seq<string>) {
    |parts| >= 2 && ParseInt(parts[1]).Some?
  }

  /**
   * Trims the line; an empty result is skipped. Otherwise the line splits on ' ' into
   * at most three parts. SET needs an int in part two and a part three (the message,
   * which keeps any further spaces); GET needs an int in part two; any other word
   * makes the whole trimmed line a chat message.
   */
  function ParseCommand(line: string): (c: Command)
    ensures c == Blank <==> forall i | 0 <= i < |line| :: IsBlank(line[i])
    ensures c.SetCommand? <==> Verb(Trim(line)) == "SET" && SetFieldsValid(Parts(line))
    ensures c.SetCommand? ==> c.id == ParseInt(Parts(line)[1]).value && c.message == Parts(line)[2]
    ensures c.GetCommand? <==> Verb(Trim(line)) == "GET" && GetFieldsValid(Parts(line))
    ensures c.GetCommand? ==> c.id == ParseInt(Parts(line)[1]).value
    ensures c.Malformed? <==>
      (Verb(Trim(line)) == "SET" && !SetFieldsValid(Parts(line)))
      || (Verb(Trim(line)) == "GET" && !GetFieldsValid(Parts(line)))
    ensures c.ChatCommand? <==> Trim(line) != [] && Verb(Trim(line)) !in {"SET", "GET"}
    ensures c.ChatCommand? ==> c.text == Trim(line)
  {
    var text := Trim(line);
    if text == [] then Blank
    else
      var parts := SplitLimit(text, ' ', 3);
      var verb := UpperCase(parts[0]);
      if verb == "SET" then
        if |parts| < 3 then Malformed
        else
          match ParseInt(parts[1])
          case Some(id) => SetCommand(id, parts[2])
          case None => Malformed
      else if verb == "GET" then
        if |parts| < 2 then Malformed
        else
          match ParseInt(parts[1])
          case Some(id) => GetCommand(id)
          case None => Malformed
      else ChatCommand(text)
  }

  /** A word that upper-cases to "SET" or "GET" has no space in it. */
  lemma VerbHasNoSpace(verb: string)
    requires UpperCase(verb) == "SET" || UpperCase(verb) == "GET"
    ensures ' ' !in verb && verb != [] && !IsBlank(verb[0])
  {
    forall i | 0 <= i < |verb| ensures verb[i] != ' ' && !IsBlank(verb[i]) {
      assert UpperChar(verb[i]) in "SETG";
    }
  }

  /** The decimal form of an id has no space in it. */
  lemma IdHasNoSpace(id: Int32)
    ensures ' ' !in IntToString(id)
  {
    var s := IntToString(id);
    forall i | 0 <= i < |s| ensures s[i] != ' ' { }
  }

  /** A SET line whose message ends in a non-blank char is already trimmed. */
  lemma SetLineTrimmed(verb: string, idText: string, message: string)
    requires UpperCase(verb) == "SET"
    requires message != [] && !IsBlank(message[|message| - 1])
    ensures Trim(verb + " " + idText + " " + message) == verb + " " + idText + " " + message
  {
    var line := verb + " " + idText + " " + message;
    VerbHasNoSpace(verb);
    assert line[0] == verb[0] && line[|line| - 1] == message[|message| - 1];
    TrimOfTrimmed(line);
  }

  /** A SET line splits into the verb, the id's text and the whole message. */
  lemma SetLineParts(verb: string, idText: string, message: string)
    requires UpperCase(verb) == "SET" && ' ' !in idText
    ensures SplitLimit(verb + " " + idText + " " + message, ' ', 3) == [verb, idText, message]
  {
    var rest := idText + [' '] + message;
    VerbHasNoSpace(verb);
    assert verb + " " + idText + " " + message == verb + [' '] + rest;
    SplitAtFirst(verb, ' ', rest, 3);
    SplitAtFirst(idText, ' ', message, 2);
    assert SplitLimit(message, ' ', 1) == [message];
  }

  /**
   * `<verb> <id text> <message>`, with a verb that upper-cases to SET, is a SET of
   * the id the text parses to and exactly that message, or dropped when the text
   * does not parse ("SET abc m").
   */
  lemma ParseSetLineAnyId(verb: string, idText: string, message: string)
    requires UpperCase(verb) == "SET" && ' ' !in idText
    requires message != [] && !IsBlank(message[|message| - 1])
    ensures ParseCommand(verb + " " + idText + " " + message)
      == match ParseInt(idText)
         case Some(id) => SetCommand(id, message)
         case None => Malformed
  {
    SetLineTrimmed(verb, idText, message);
    SetLineParts(verb, idText, message);
  }

  /**
   * `<verb> <id> <message>` with a verb that upper-cases to SET ("set", "Set", …)
   * is a SET of exactly that id and message, spaces inside the message included.
   */
  lemma ParseSetLine(verb: string, id: Int32, message: string)
    requires UpperCase(verb) == "SET"
    requires message != [] && !IsBlank(message[|message| - 1])
    ensures ParseCommand(verb + " " + IntToString(id) + " " + message) == SetCommand(id, message)
  {
    IdHasNoSpace(id);
    ParseSetLineAnyId(verb, IntToString(id), message);
    ParseIntToString(id);
  }

  /** `<verb> <id>` with a command word for a verb is already trimmed. */
  lemma VerbIdLineTrimmed(verb: string, id: Int32)
    requires UpperCase(verb) == "SET" || UpperCase(verb) == "GET"
    ensures Trim(verb + " " + IntToString(id)) == verb + " " + IntToString(id)
  {
    var digits := IntToString(id);
    var line := verb + " " + digits;
    VerbHasNoSpace(verb);
    assert line[0] == verb[0] && line[|line| - 1] == digits[|digits| - 1];
    TrimOfTrimmed(line);
  }

  /** `<verb> <id>` splits into the verb and the id's digits, and nothing more. */
  lemma VerbIdLineParts(verb: string, id: Int32)
    requires UpperCase(verb) == "SET" || UpperCase(verb) == "GET"
    ensures SplitLimit(verb + " " + IntToString(id), ' ', 3) == [verb, IntToString(id)]
  {
    var digits := IntToString(id);
    VerbHasNoSpace(verb);
    IdHasNoSpace(id);
    assert verb + " " + digits == verb + [' '] + digits;
    SplitAtFirst(verb, ' ', digits, 3);
    SplitWithoutSeparator(digits, ' ', 2);
  }

  /** `<verb> <id>` with a verb that upper-cases to GET is a GET of that id. */
  lemma ParseGetLine(verb: string, id: Int32)
    ensures UpperCase(verb) == "GET" ==> ParseCommand(verb + " " + IntToString(id)) == GetCommand(id)
  {
    if UpperCase(verb) == "GET" {
      VerbIdLineTrimmed(verb, id);
      VerbIdLineParts(verb, id);
      ParseIntToString(id);
    }
  }

  /** A SET without a message is dropped: there is no third part to read. */
  lemma SetWithoutMessageIsDropped(verb: string, id: Int32)
    requires UpperCase(verb) == "SET"
    ensures ParseCommand(verb + " " + IntToString(id)) == Malformed
  {
    VerbIdLineTrimmed(verb, id);
    VerbIdLineParts(verb, id);
  }

  /** Two id texts that parse alike make the same SET command. */
  lemma SameParseSameSet(verb: string, a: string, b: string, message: string)
    requires UpperCase(verb) == "SET" && ' ' !in a && ' ' !in b && ParseInt(a) == ParseInt(b)
    requires message != [] && !IsBlank(message[|message| - 1])
    ensures ParseCommand(verb + " " + a + " " + message) == ParseCommand(verb + " " + b + " " + message)
  {
    ParseSetLineAnyId(verb, a, message);
    ParseSetLineAnyId(verb, b, message);
  }

  /**
   * An id with leading zeros or a '+' names the same id: "SET 007 m" and "SET +7 m"
   * store under 7, as "SET 7 m" does.
   */
  lemma IdSpellingsAgree(verb: string, digits: string, message: string)
    requires UpperCase(verb) == "SET" && digits != [] && AllDigits(digits)
    requires message != [] && !IsBlank(message[|message| - 1])
    ensures ParseCommand(verb + " " + ("0" + digits) + " " + message) == ParseCommand(verb + " " + digits + " " + message)
    ensures ParseCommand(verb + " " + ("+" + digits) + " " + message) == ParseCommand(verb + " " + digits + " " + message)
  {
    ParseIntIgnoresZeroAndPlus(digits);
    assert ' ' !in digits && ' ' !in "0" + digits && ' ' !in "+" + digits;
    SameParseSameSet(verb, "0" + digits, digits, message);
    SameParseSameSet(verb, "+" + digits, digits, message);
  }

  // ---------------------------------------------------------------- tolerance.conf

  const DefaultTolerance := 1
  const TolerancePrefix := "TOLERANCE="

  /**
   * The replication factor read at startup from the first line of `tolerance.conf`
   * (`conf` is the file's contents, None when it cannot be opened or read). The
   * default 1 stands whenever there is no first line or that line does not configure
   * a value.
   */
  function LoadTolerance(conf: Option<string>): (t: Int32)
    ensures conf.None? || conf == Some([]) ==> t == DefaultTolerance
    ensures conf.Some? && conf.value != [] ==>
      ReadLines(conf.value) != [] && t == ToleranceFromLine(ReadLines(conf.value)[0])
    ensures t != DefaultTolerance ==>
      conf.Some? && ReadLines(conf.value) != [] && StartsWith(Trim(ReadLines(conf.value)[0]), TolerancePrefix)
  {
    if conf.None? then DefaultTolerance
    else
      var lines := ReadLines(conf.value);
      if lines == [] then DefaultTolerance else ToleranceFromLine(lines[0])
  }

  /**
   * A line configures a value when, trimmed, it starts with "TOLERANCE=", it has a
   * second '='-separated part, and that part, trimmed, is an int.
   */
  predicate ConfiguresTolerance(line: string) {
    StartsWith(Trim(line), TolerancePrefix)
    && |SplitAll(line, '=')| >= 2 && ParseInt(Trim(SplitAll(line, '=')[1])).Some?
  }

  /**
   * The value one configuration line sets: the int after the '=' when the line
   * configures one, the default 1 otherwise. Zero and negative values are accepted
   * as written.
   */
  function ToleranceFromLine(line: string): (t: Int32)
    ensures ConfiguresTolerance(line) ==> t == ParseInt(Trim(SplitAll(line, '=')[1])).value
    ensures !ConfiguresTolerance(line) ==> t == DefaultTolerance
    ensures t != DefaultTolerance ==> StartsWith(Trim(line), TolerancePrefix)
  {
    if !StartsWith(Trim(line), TolerancePrefix) then DefaultTolerance
    else
      var parts := SplitAll(line, '=');
      if |parts| < 2 then DefaultTolerance
      else
        match ParseInt(Trim(parts[1]))
        case Some(k) => k
        case None => DefaultTolerance
  }

  /** The configuration line `TOLERANCE=<k>` is already trimmed. */
  lemma ToleranceLineTrimmed(k: Int32)
    ensures Trim(TolerancePrefix + IntToString(k)) == TolerancePrefix + IntToString(k)
  {
    var digits := IntToString(k);
    var line := TolerancePrefix + digits;
    assert line[0] == 'T' && line[|line| - 1] == digits[|digits| - 1];
    TrimOfTrimmed(line);
  }

  /** `key=value`, with no further '=' and a non-empty value, splits into the key and the value. */
  lemma SplitKeyValue(key: string, value: string)
    requires '=' !in key && '=' !in value && value != []
    ensures SplitAll(key + ['='] + value, '=') == [key, value]
  {
    IndexOfAfter(key, '=', value);
    SplitAtFirst(key, '=', value, 2);
    SplitWithoutSeparator(value, '=', 1);
    assert DropTrailingEmpty([key, value]) == [key, value];
  }

  /** The configuration line `TOLERANCE=<k>` splits on '=' into the key and the digits of `k`. */
  lemma ToleranceLineSplit(k: Int32)
    ensures SplitAll(TolerancePrefix + IntToString(k), '=') == ["TOLERANCE", IntToString(k)]
  {
    var digits := IntToString(k);
    assert '=' !in digits by {
      forall i | 0 <= i < |digits| ensures digits[i] != '=' { }
    }
    assert "TOLERANCE" + ['='] + digits == TolerancePrefix + digits;
    SplitKeyValue("TOLERANCE", digits);
  }

  /** The line `TOLERANCE=<k>` has no line break in it. */
  lemma ToleranceLineUnbroken(k: Int32)
    ensures forall i | 0 <= i < |TolerancePrefix + IntToString(k)| :: !IsLineBreak((TolerancePrefix + IntToString(k))[i])
  {
    var digits := IntToString(k);
    var line := TolerancePrefix + digits;
    forall i | 0 <= i < |line| ensures !IsLineBreak(line[i]) {
      if i >= |TolerancePrefix| { assert line[i] == digits[i - |TolerancePrefix|]; }
    }
  }

  /** A file holding just `TOLERANCE=<k>` is read as that one line. */
  lemma ToleranceFileLines(k: Int32)
    ensures ReadLines(TolerancePrefix + IntToString(k)) == [TolerancePrefix + IntToString(k)]
  {
    ToleranceLineUnbroken(k);
    SingleLine(TolerancePrefix + IntToString(k));
  }

  /** The line `TOLERANCE=<k>` configures exactly `k`. */
  lemma ToleranceLineValue(k: Int32)
    ensures ToleranceFromLine(TolerancePrefix + IntToString(k)) == k
  {
    var digits := IntToString(k);
    var line := TolerancePrefix + digits;
    assert StartsWith(Trim(line), TolerancePrefix) by {
      ToleranceLineTrimmed(k);
      assert line[..|TolerancePrefix|] == TolerancePrefix;
    }
    ToleranceLineSplit(k);
    TrimOfTrimmed(digits);
    ParseIntToString(k);
  }

  /**
   * A file whose first line is `TOLERANCE=<k>`, ended by "\n", "\r" or "\r\n" and
   * followed by anything, configures exactly `k`: "TOLERANCE=2\n" sets 2.
   */
  lemma LoadToleranceFirstLine(k: Int32, brk: char, rest: string)
    requires IsLineBreak(brk)
    ensures LoadTolerance(Some(TolerancePrefix + IntToString(k) + [brk] + rest)) == k
  {
    ToleranceLineUnbroken(k);
    FirstLineBeforeBreak(TolerancePrefix + IntToString(k), brk, rest);
    ToleranceLineValue(k);
  }

  /** A file whose only line is `TOLERANCE=<k>` configures exactly `k`. */
  lemma LoadToleranceReadsValue(k: Int32)
    ensures LoadTolerance(Some(TolerancePrefix + IntToString(k))) == k
  {
    ToleranceFileLines(k);
    ToleranceLineValue(k);
  }
}
